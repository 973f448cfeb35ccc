/**
 The circular buffer of write operations (aesd-circular-buffer.c): a ring of entries that holds the
 most recent writes, and the two searches between flat positions and (entry, byte) pairs.
 */
module CircularBuffer {
  import opened Bytes
  import opened BoundedLog

  /** A pointer to the bytes of one write, and their number. */
  datatype Entry = Entry(buffptr: array?<byte>, size: nat)

  const EMPTY: Entry := Entry(null, 0)

  function Sizes(log: seq<Entry>): (ns: seq<nat>)
    ensures |ns| == |log|
  {
    seq(|log|, i requires 0 <= i < |log| => log[i].size)
  }

  /** What the length computation adds up: the sizes of the entries that point somewhere. */
  function CountedSizes(slots: seq<Entry>): (ns: seq<nat>)
    ensures |ns| == |slots|
  {
    seq(|slots|, i requires 0 <= i < |slots| => if slots[i].buffptr != null then slots[i].size else 0)
  }

  /** The slot `i` places after `start` in a ring of `n` slots. */
  function Wrap(n: nat, start: nat, i: nat): (r: nat)
    requires start < n && i <= n
    ensures r < n
  {
    if start + i < n then start + i else start + i - n
  }

  /** The slot after `posn`, as the program computes it. */
  function NextSlot(n: nat, posn: nat): (r: nat)
    requires posn < n
    ensures r == Wrap(n, posn, 1)
  {
    (posn + 1) % n
  }

  /** The slots from `start` on, round the end of the array. */
  function Rotate<T>(slots: seq<T>, start: nat): (r: seq<T>)
    requires start < |slots|
    ensures |r| == |slots|
    ensures forall i {:trigger r[i]} :: 0 <= i < |r| ==> r[i] == slots[Wrap(|slots|, start, i)]
  {
    slots[start..] + slots[..start]
  }

  /** Writing the slot `k` places after the start. */
  lemma RotateUpdate<T>(slots: seq<T>, start: nat, k: nat, e: T)
    requires start < |slots| && k < |slots|
    ensures Rotate(slots[Wrap(|slots|, start, k) := e], start) == Rotate(slots, start)[k := e]
  {
  }

  /** Overwriting the oldest slot and starting after it drops the oldest and appends the new one. */
  lemma RotateOverwrite<T>(slots: seq<T>, start: nat, e: T)
    requires start < |slots|
    ensures Rotate(slots[start := e], NextSlot(|slots|, start)) == Rotate(slots, start)[1..] + [e]
  {
  }

  /** The two indices and the flag of a ring. */
  datatype Offsets = Offsets(inOffs: nat, outOffs: nat, full: bool) {
    predicate InRange(n: nat) {
      inOffs < n && outOffs < n && (full ==> inOffs == outOffs)
    }

    /** The number of entries held by a ring of `n` slots. */
    function Count(n: nat): (c: nat)
      requires InRange(n)
      ensures c <= n && (c == n <==> full)
    {
      if full then n
      else if inOffs >= outOffs then inOffs - outOffs
      else n - outOffs + inOffs
    }

    /** Where the offsets stand after one more entry. */
    function Advance(n: nat): (o: Offsets)
      requires InRange(n)
      ensures o.InRange(n) && o.Count(n) == Min(n, Count(n) + 1)
    {
      var out := if full then NextSlot(n, outOffs) else outOffs;
      var into := NextSlot(n, inOffs);
      Offsets(into, out, full || into == out)
    }
  }

  /** The offsets are in range and the slots that hold no entry are empty. */
  ghost predicate WellFormed(slots: seq<Entry>, o: Offsets) {
    o.InRange(|slots|) &&
    forall i :: o.Count(|slots|) <= i < |slots| ==> Rotate(slots, o.outOffs)[i] == EMPTY
  }

  ghost function LogOf(slots: seq<Entry>, o: Offsets): seq<Entry>
    requires o.InRange(|slots|)
  {
    Rotate(slots, o.outOffs)[..o.Count(|slots|)]
  }

  /** Storing at the in-offset and advancing appends to a log of bounded length. */
  lemma AdvancePushes(slots: seq<Entry>, o: Offsets, e: Entry)
    requires WellFormed(slots, o)
    ensures WellFormed(slots[o.inOffs := e], o.Advance(|slots|))
    ensures LogOf(slots[o.inOffs := e], o.Advance(|slots|)) == Push(|slots|, LogOf(slots, o), e)
    ensures Rotate(slots, o.outOffs)[if o.full then 0 else o.Count(|slots|)] == slots[o.inOffs]
  {
    var n, c := |slots|, o.Count(|slots|);
    if o.full {
      RotateOverwrite(slots, o.outOffs, e);
    } else {
      RotateUpdate(slots, o.outOffs, c, e);
      assert Rotate(slots, o.outOffs)[c := e][..c + 1] == Rotate(slots, o.outOffs)[..c] + [e];
    }
  }

  function AdvanceBy(n: nat, o: Offsets, k: nat): (o': Offsets)
    requires o.InRange(n)
    ensures o'.InRange(n)
    decreases k
  {
    if k == 0 then o else AdvanceBy(n, o.Advance(n), k - 1)
  }

  /**
   From the initial state, after any number of additions: the out-offset stays 0 until the ring is
   full, a full ring stays full with equal offsets, and so a ring that is not full never wraps.
   */
  lemma {:induction false} OffsetsReached(n: nat, o: Offsets, k: nat)
    requires o.InRange(n) && (!o.full ==> o.outOffs == 0)
    ensures var o' := AdvanceBy(n, o, k);
            && (!o'.full ==> o'.outOffs == 0 && o'.inOffs == o.inOffs + k)
            && (o'.full <==> o.full || o.inOffs + k >= n)
            && o'.Count(n) == Min(n, o.Count(n) + k)
    decreases k
  {
    if k == 0 {
    } else {
      OffsetsReached(n, o.Advance(n), k - 1);
    }
  }

  class Ring {
    const entry: array<Entry>
    var inOffs: nat
    var outOffs: nat
    var full: bool

    ghost function Rotated(): seq<Entry>
      requires outOffs < entry.Length
      reads this, entry
    {
      Rotate(entry[..], outOffs)
    }

    ghost predicate Valid()
      reads this, entry
    {
      WellFormed(entry[..], Offsets(inOffs, outOffs, full))
    }

    /** The entries held, oldest first. */
    ghost function Log(): (log: seq<Entry>)
      requires Valid()
      reads this, entry
    {
      LogOf(entry[..], Offsets(inOffs, outOffs, full))
    }

    /** Establishes the empty buffer that aesd_circular_buffer_init leaves. */
    constructor Init(capacity: nat)
      requires 0 < capacity
      ensures Valid() && fresh(entry) && entry.Length == capacity && Log() == []
      ensures inOffs == outOffs == 0 && !full
      ensures forall i :: 0 <= i < capacity ==> entry[i] == EMPTY
    {
      entry := new Entry[capacity](_ => EMPTY);
      inOffs, outOffs, full := 0, 0, false;
    }

    /** Appends an entry; on a full ring the oldest one makes room and its pointer is handed back. */
    method AddEntry(e: Entry) returns (toFree: array?<byte>)
      requires Valid()
      modifies this, entry
      ensures Valid()
      ensures Log() == Push(entry.Length, old(Log()), e)
      ensures toFree == if old(full) then old(Log()[0].buffptr) else null
      ensures old(entry[inOffs].buffptr) == toFree
      ensures entry[..] == old(entry[..][inOffs := e])
      ensures Offsets(inOffs, outOffs, full) == old(Offsets(inOffs, outOffs, full).Advance(entry.Length))
    {
      AdvancePushes(entry[..], Offsets(inOffs, outOffs, full), e);
      toFree := null;
      if full {
        toFree := entry[outOffs].buffptr;
        outOffs := NextSlot(entry.Length, outOffs);
      }
      entry[inOffs] := e;
      inOffs := NextSlot(entry.Length, inOffs);
      if inOffs == outOffs {
        full := true;
      }
      assert entry[..] == old(entry[..][inOffs := e]);
    }

    /** The number of bytes held, added up slot by slot from the start of the array. */
    method GetLength() returns (total: nat)
      requires Valid()
      ensures total == Sum(CountedSizes(Log()))
    {
      var i := 0;
      total := 0;
      while i < entry.Length
        invariant 0 <= i <= entry.Length
        invariant total == Sum(CountedSizes(entry[..])[..i])
      {
        SumPrefixStep(CountedSizes(entry[..]), i);
        if entry[i].buffptr != null {
          total := total + entry[i].size;
        }
        i := i + 1;
      }
      assert CountedSizes(entry[..])[..entry.Length] == CountedSizes(entry[..]);
      SumOfRotation(entry[..], outOffs, |Log()|);
    }

    /** How many entries a search has to visit; the ring is not empty. */
    method NumIterations() returns (n: nat)
      requires Valid() && Log() != []
      ensures n == |Log()|
    {
      if full {
        n := entry.Length;
      } else if inOffs > outOffs {
        n := inOffs - outOffs;
      } else {
        n := entry.Length - outOffs + inOffs;
      }
    }

    /** The flat position of byte `writeCmdOffset` of write `writeCmd`, or -1. */
    method FindSeektoFpos(writeCmd: nat, writeCmdOffset: nat) returns (pos: int)
      requires Valid()
      ensures pos == SeekTo(entry.Length, Sizes(Log()), writeCmd, writeCmdOffset)
    {
      if !full && inOffs == outOffs {
        return -1;
      }
      var numIterations := NumIterations();
      if writeCmd > numIterations {
        return -1;
      }
      var posn, cumulative, i := outOffs, 0, 0;
      ghost var sizes, slots := Sizes(Log()), Rotated();
      while i < numIterations
        invariant i <= numIterations && i <= writeCmd
        invariant posn == Wrap(entry.Length, outOffs, i)
        invariant cumulative == Sum(sizes[..i])
      {
        if i == writeCmd {
          break;
        }
        assert entry[posn].size == slots[i].size == sizes[i];
        SumPrefixStep(sizes, i);
        cumulative := cumulative + entry[posn].size;
        posn := NextSlot(entry.Length, posn);
        i := i + 1;
      }
      assert i == writeCmd;
      assert entry[posn] == slots[if i == entry.Length then 0 else i];
      assert entry[posn].size == SeekLimit(entry.Length, sizes, writeCmd);
      if writeCmdOffset > entry[posn].size {
        return -1;
      }
      return cumulative + writeCmdOffset;
    }

    /**
     The slot and the byte within it that hold flat position `charOffset`; no slot when there is no
     such position. The byte offset is cleared only when the search runs to its end.
     */
    method FindEntryOffsetForFpos(charOffset: nat, entryOffsetByte: nat) returns (slot: Option<nat>, rtn: nat)
      requires Valid()
      ensures slot.Some? <==> charOffset < Sum(Sizes(Log()))
      ensures slot.Some? ==>
                var i := Locate(Sizes(Log()), charOffset).0;
                slot.value == Wrap(entry.Length, outOffs, i) && entry[slot.value] == Log()[i]
      ensures slot.Some? ==> rtn == Locate(Sizes(Log()), charOffset).1
      ensures slot.None? ==> rtn == if Log() == [] then entryOffsetByte else 0
    {
      if !full && inOffs == outOffs {
        return None, entryOffsetByte;
      }
      var numIterations := NumIterations();
      var posn, cumulative, i := outOffs, 0, 0;
      ghost var sizes, slots := Sizes(Log()), Rotated();
      while i < numIterations
        invariant i <= numIterations
        invariant posn == Wrap(entry.Length, outOffs, i)
        invariant cumulative == Sum(sizes[..i]) <= charOffset
      {
        assert entry[posn] == slots[i] == Log()[i];
        var j := 0;
        while j < entry[posn].size
          invariant j <= entry[posn].size
          invariant cumulative == Sum(sizes[..i]) + j <= charOffset
        {
          if cumulative == charOffset {
            FoundIsLocated(sizes, i, j, charOffset);
            return Some(posn), j;
          }
          cumulative := cumulative + 1;
          j := j + 1;
        }
        SumPrefixStep(sizes, i);
        posn := NextSlot(entry.Length, posn);
        i := i + 1;
      }
      assert sizes[..i] == sizes;
      return None, 0;
    }
  }

  /**
   Adding up slots in array order counts what the entries from oldest to newest hold, wherever the
   ring currently starts, because the unused slots are empty.
   */
  lemma SumOfRotation(slots: seq<Entry>, start: nat, count: nat)
    requires start < |slots| && count <= |slots|
    requires forall i :: count <= i < |slots| ==> Rotate(slots, start)[i] == EMPTY
    ensures Sum(CountedSizes(slots)) == Sum(CountedSizes(Rotate(slots, start)[..count]))
  {
    var r := Rotate(slots, start);
    assert CountedSizes(slots) == CountedSizes(slots[..start]) + CountedSizes(slots[start..]);
    SumConcat(CountedSizes(slots[..start]), CountedSizes(slots[start..]));
    SumConcat(CountedSizes(slots[start..]), CountedSizes(slots[..start]));
    assert CountedSizes(r) == CountedSizes(slots[start..]) + CountedSizes(slots[..start]);
    assert CountedSizes(r) == CountedSizes(r[..count]) + Zeros(|r| - count);
    SumConcat(CountedSizes(r[..count]), Zeros(|r| - count));
    SumOfZeros(|r| - count);
  }

  function Zeros(n: nat): seq<nat> {
    seq(n, _ => 0)
  }

  lemma {:induction false} SumOfZeros(n: nat)
    ensures Sum(Zeros(n)) == 0
  {
    if n == 0 {
    } else {
      SumOfZeros(n - 1);
      assert Zeros(n)[1..] == Zeros(n - 1);
    }
  }
}
