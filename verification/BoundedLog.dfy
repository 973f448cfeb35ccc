/**
 A bounded log of variable-length entries and the flat positions of its bytes: the reference
 that the circular buffer is proved against. Entries are listed oldest first.
 */
module BoundedLog {
  import opened Bytes

  /** Append `e` to a log that keeps at most `n` entries, dropping the oldest when it is full. */
  function Push<T>(n: nat, log: seq<T>, e: T): seq<T>
    requires 0 < n
  {
    if |log| < n then log + [e] else log[1..] + [e]
  }

  /** The last `n` elements, or all of them when there are fewer. */
  function LastN<T>(n: nat, all: seq<T>): (r: seq<T>)
    ensures |r| == Min(n, |all|) && r == all[|all| - |r|..]
  {
    if |all| <= n then all else all[|all| - n..]
  }

  /** What keeping only the last `n` elements drops. */
  function AllButLast<T>(n: nat, all: seq<T>): (r: seq<T>)
    ensures r + LastN(n, all) == all
  {
    all[..|all| - |LastN(n, all)|]
  }

  function PushAll<T>(n: nat, log: seq<T>, es: seq<T>): seq<T>
    requires 0 < n
    decreases |es|
  {
    if es == [] then log else PushAll(n, Push(n, log, es[0]), es[1..])
  }

  /** Pushing any entries one by one keeps exactly the last `n` of everything ever pushed. */
  lemma {:induction false} PushAllKeepsLast<T>(n: nat, log: seq<T>, es: seq<T>)
    requires 0 < n && |log| <= n
    ensures PushAll(n, log, es) == LastN(n, log + es)
    decreases |es|
  {
    if es == [] {
      assert log + es == log;
    } else {
      var log' := Push(n, log, es[0]);
      PushAllKeepsLast(n, log', es[1..]);
      PushForgets(n, log, es[0], es[1..]);
      assert [es[0]] + es[1..] == es;
    }
  }

  lemma PushForgets<T>(n: nat, log: seq<T>, e: T, rest: seq<T>)
    requires 0 < n && |log| <= n
    ensures LastN(n, Push(n, log, e) + rest) == LastN(n, log + ([e] + rest))
  {
    var a, b := Push(n, log, e) + rest, log + ([e] + rest);
    if |log| < n {
      Assoc(log, [e], rest);
    } else {
      Assoc(log[1..], [e], rest);
      assert b[1..] == log[1..] + ([e] + rest) == a;
      assert b[|b| - n..] == b[1..][|b| - 1 - n..];
    }
  }

  /** Position `pos` of the flattened log is byte `j` of entry `i`. */
  predicate At(sizes: seq<nat>, i: nat, j: nat, pos: nat) {
    i < |sizes| && j < sizes[i] && Sum(sizes[..i]) + j == pos
  }

  /** The entry and the byte that hold flat position `pos`. */
  function Locate(sizes: seq<nat>, pos: nat): (r: (nat, nat))
    requires pos < Sum(sizes)
    ensures At(sizes, r.0, r.1, pos)
  {
    if pos < sizes[0] then
      (0, pos)
    else
      var (i, j) := Locate(sizes[1..], pos - sizes[0]);
      assert sizes[..i + 1][1..] == sizes[1..][..i];
      (i + 1, j)
  }

  lemma AtBounds(sizes: seq<nat>, i: nat, j: nat, pos: nat)
    requires At(sizes, i, j, pos)
    ensures pos < Sum(sizes[..i + 1]) <= Sum(sizes)
  {
    SumPrefixStep(sizes, i);
    SumPrefixMonotone(sizes, i + 1, |sizes|);
    assert sizes[..|sizes|] == sizes;
  }

  /** Flat positions are ordered exactly as (entry, byte) pairs are, lexicographically. */
  lemma PositionOrder(sizes: seq<nat>, i: nat, j: nat, pos: nat, i': nat, j': nat, pos': nat)
    requires At(sizes, i, j, pos) && At(sizes, i', j', pos')
    ensures pos < pos' <==> i < i' || (i == i' && j < j')
    ensures pos == pos' <==> i == i' && j == j'
  {
    AtBounds(sizes, i, j, pos);
    AtBounds(sizes, i', j', pos');
    if i < i' {
      SumPrefixMonotone(sizes, i + 1, i');
    } else if i' < i {
      SumPrefixMonotone(sizes, i' + 1, i);
    }
  }

  /** A pair found by counting is the pair that Locate names. */
  lemma FoundIsLocated(sizes: seq<nat>, i: nat, j: nat, pos: nat)
    requires At(sizes, i, j, pos)
    ensures pos < Sum(sizes) && Locate(sizes, pos) == (i, j)
  {
    AtBounds(sizes, i, j, pos);
    var (i', j') := Locate(sizes, pos);
    PositionOrder(sizes, i, j, pos, i', j', pos);
  }

  /** Every position below the total is one and only one byte of one entry; no other position is. */
  lemma PositionsCovered(sizes: seq<nat>, pos: nat)
    ensures pos < Sum(sizes) <==> exists i: nat, j: nat :: At(sizes, i, j, pos)
    ensures forall i: nat, j: nat, i': nat, j': nat ::
              At(sizes, i, j, pos) && At(sizes, i', j', pos) ==> i == i' && j == j'
  {
    if pos < Sum(sizes) {
      var (i, j) := Locate(sizes, pos);
      assert At(sizes, i, j, pos);
    }
    forall i: nat, j: nat | At(sizes, i, j, pos)
      ensures pos < Sum(sizes)
    {
      AtBounds(sizes, i, j, pos);
    }
    forall i: nat, j: nat, i': nat, j': nat | At(sizes, i, j, pos) && At(sizes, i', j', pos)
      ensures i == i' && j == j'
    {
      PositionOrder(sizes, i, j, pos, i', j', pos);
    }
  }

  /**
   The position a seek to byte `o` of write `c` yields in a log of capacity `n`, or -1. One past the
   last write and one past the last byte of a write are accepted: past the last write, the byte
   offset is checked against the slot that follows in the ring, which holds the oldest entry when
   the ring is full and nothing otherwise.
   */
  function SeekTo(n: nat, sizes: seq<nat>, c: nat, o: nat): int {
    if sizes == [] || c > |sizes| then -1
    else if o > SeekLimit(n, sizes, c) then -1
    else Sum(sizes[..c]) + o
  }

  function SeekLimit(n: nat, sizes: seq<nat>, c: nat): nat
    requires sizes != [] && c <= |sizes|
  {
    if c < |sizes| then sizes[c] else if |sizes| == n then sizes[0] else 0
  }

  /** Seeking and searching undo each other on the zero-referenced pairs of the interface. */
  lemma SeekInvertsFind(n: nat, sizes: seq<nat>, c: nat, o: nat, pos: nat)
    ensures c < |sizes| && o < sizes[c] ==>
              var p := SeekTo(n, sizes, c, o);
              0 <= p < Sum(sizes) && Locate(sizes, p) == (c, o)
    ensures pos < Sum(sizes) ==>
              var (i, j) := Locate(sizes, pos);
              i < |sizes| && j < sizes[i] && SeekTo(n, sizes, i, j) == pos
  {
    if c < |sizes| && o < sizes[c] {
      FoundIsLocated(sizes, c, o, SeekTo(n, sizes, c, o));
    }
  }

  /** What exactly is accepted outside the zero-referenced range, and where such a seek leads. */
  lemma SeekBoundary(n: nat, sizes: seq<nat>, c: nat, o: nat)
    requires |sizes| <= n
    requires !(c < |sizes| && o < sizes[c])
    ensures SeekTo(n, sizes, c, o) != -1 <==>
              || (c < |sizes| && o == sizes[c])
              || (c == |sizes| && 0 < c && o <= if c == n then sizes[0] else 0)
    ensures c < |sizes| && o == sizes[c] ==> SeekTo(n, sizes, c, o) == Sum(sizes[..c + 1])
    ensures c + 1 < |sizes| && o == sizes[c] && 0 < sizes[c + 1] ==> At(sizes, c + 1, 0, SeekTo(n, sizes, c, o))
    ensures c + 1 == |sizes| && o == sizes[c] ==> SeekTo(n, sizes, c, o) == Sum(sizes)
    ensures c == |sizes| && SeekTo(n, sizes, c, o) != -1 ==> SeekTo(n, sizes, c, o) == Sum(sizes) + o
  {
    if c < |sizes| {
      SumPrefixStep(sizes, c);
    }
    assert sizes[..|sizes|] == sizes;
  }

  /** A seek ends past the end of the data iff it names the write after a full ring and a byte other than 0. */
  lemma SeekPastEnd(n: nat, sizes: seq<nat>, c: nat, o: nat)
    requires |sizes| <= n
    ensures SeekTo(n, sizes, c, o) > Sum(sizes) <==>
              c == |sizes| == n && 0 < n && 0 < o <= sizes[0]
  {
    assert sizes[..|sizes|] == sizes;
    if c < |sizes| {
      SumPrefixStep(sizes, c);
      SumPrefixMonotone(sizes, c + 1, |sizes|);
    }
  }

  /** Byte `o` of entry `c` is the byte of the flattened log at the position the pair denotes. */
  lemma PositionIndexesFlatten<T>(log: seq<seq<T>>, i: nat, j: nat, pos: nat)
    requires At(Lengths(log), i, j, pos)
    ensures pos < |Flatten(log)| && Flatten(log)[pos] == log[i][j]
    ensures pos + (|log[i]| - j) <= |Flatten(log)|
    ensures Flatten(log)[pos..pos + (|log[i]| - j)] == log[i][j..]
  {
    FlattenSplitAt(log, i);
  }
}
