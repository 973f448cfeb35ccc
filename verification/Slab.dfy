/**
 The kernel allocator, as far as the driver relies on it. A block is an array whose length is its
 usable size, so a reallocation may hand back the same block. The ghost fields record which blocks
 were ever handed out, which are live, and how often each was freed.
 */
module Slab {
  import opened Bytes

  type Block = array<byte>

  class Allocator {
    /** What an allocation of no bytes gives: no block at all, and freeing it does nothing. */
    const zeroSize: Block
    ghost var allocations: set<Block>
    ghost var live: set<Block>
    ghost var frees: multiset<Block>

    /** Every block ever handed out is either live or freed once, and nothing else was freed. */
    ghost predicate Valid()
      reads this
    {
      && zeroSize.Length == 0 && zeroSize !in allocations
      && live <= allocations && multiset(allocations) == multiset(live) + frees
    }

    constructor ()
      ensures Valid() && allocations == {} && live == {} && fresh(zeroSize)
    {
      zeroSize := new byte[0];
      allocations, live, frees := {}, {}, multiset{};
    }

    method Kfree(p: Block)
      requires Valid() && (p in live || p == zeroSize)
      modifies this
      ensures Valid() && live == old(live) - {p} && allocations == old(allocations)
    {
      if p != zeroSize {
        assert multiset(live) == multiset(live - {p}) + multiset{p};
        live := live - {p};
        frees := frees + multiset{p};
      }
    }

    /** A block of at least `size` bytes that starts with what the old one held; none for no bytes. */
    method Krealloc(p: array?<byte>, size: nat) returns (q: Block)
      requires Valid() && (p == null || p == zeroSize || p in live)
      modifies this
      ensures Valid() && size <= q.Length
      ensures if size == 0 then q == zeroSize else q != zeroSize && (q == p || fresh(q))
      ensures live == old(live) - (if p == null then {} else {p}) + (if size == 0 then {} else {q})
      ensures allocations == old(allocations) + (if size == 0 then {} else {q})
      ensures p != null ==> forall k :: 0 <= k < p.Length && k < q.Length ==> q[k] == old(p[k])
    {
      if size == 0 {
        q := zeroSize;
      } else if p != null && size <= p.Length {
        return p;
      } else {
        q := NewBlock(p, size);
      }
      if p != null {
        Kfree(p);
      }
    }

    /** A new block for at least `size` bytes, with a copy of what `p` holds. */
    method NewBlock(p: array?<byte>, size: nat) returns (q: Block)
      requires Valid() && 0 < size && (p != null ==> p.Length < size)
      modifies this
      ensures Valid() && size <= q.Length && fresh(q)
      ensures live == old(live) + {q} && allocations == old(allocations) + {q}
      ensures p != null ==> forall k :: 0 <= k < p.Length ==> q[k] == p[k]
    {
      var usable: nat :| size <= usable;  // the allocator rounds the size up
      q := new byte[usable];
      if p != null {
        forall k | 0 <= k < p.Length {
          q[k] := p[k];
        }
      }
      assert q !in allocations;
      assert multiset(allocations + {q}) == multiset(allocations) + multiset{q};
      assert multiset(live + {q}) == multiset(live) + multiset{q};
      allocations, live := allocations + {q}, live + {q};
    }
  }

  /** Copies `src` into `dst` from index `at` on. */
  method Memcpy(dst: Block, at: nat, src: seq<byte>)
    requires at + |src| <= dst.Length
    modifies if src == [] then {} else {dst}
    ensures dst[..] == old(dst[..at]) + src + old(dst[at + |src|..])
  {
    forall k | 0 <= k < |src| {
      dst[at + k] := src[k];
    }
  }
}
