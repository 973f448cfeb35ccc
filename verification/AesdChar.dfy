/**
 The character device driver (main.c): the handlers over the ring, the pending entry, the blocks they
 own and the positions of open files. Each handler is one step: read and write work under the device
 lock throughout, the two seeks work out the position under it and set the position after releasing it.
 */
module AesdChar {
  import opened Bytes
  import opened BoundedLog
  import opened CircularBuffer
  import opened DeviceModel
  import opened Slab

  /** The part of an open file that the driver uses. */
  class File {
    var fPos: nat

    constructor ()
      ensures fPos == 0
    {
      fPos := 0;
    }
  }

  ghost function BlockOf(e: Entry): (bs: set<Block>)
    ensures e.buffptr != null ==> bs == {e.buffptr}
  {
    if e.buffptr == null then {} else {e.buffptr}
  }

  ghost function Blocks(slots: seq<Entry>): set<Block> {
    set i | 0 <= i < |slots| && slots[i].buffptr != null :: slots[i].buffptr
  }

  ghost predicate NoSharing(slots: seq<Entry>) {
    forall i, j :: 0 <= i < j < |slots| && slots[i].buffptr != null ==> slots[i].buffptr != slots[j].buffptr
  }

  /** Replacing the block of one slot. */
  lemma BlocksAfterUpdate(slots: seq<Entry>, k: nat, e: Entry)
    requires k < |slots| && NoSharing(slots) && BlockOf(e) !! Blocks(slots)
    ensures NoSharing(slots[k := e])
    ensures Blocks(slots[k := e]) == Blocks(slots) - BlockOf(slots[k]) + BlockOf(e)
    ensures BlockOf(slots[k]) <= Blocks(slots)
  {
    var slots' := slots[k := e];
    if e.buffptr != null {
      assert slots'[k].buffptr == e.buffptr;
    }
    if slots[k].buffptr != null {
      assert slots[k].buffptr in Blocks(slots);
    }
    forall b | b in Blocks(slots) - BlockOf(slots[k])
      ensures b in Blocks(slots')
    {
      var i :| 0 <= i < |slots| && slots[i].buffptr == b;
      assert slots'[i].buffptr == b;
    }
    forall b | b in Blocks(slots')
      ensures b in Blocks(slots) - BlockOf(slots[k]) + BlockOf(e)
    {
      var i :| 0 <= i < |slots'| && slots'[i].buffptr == b;
      if i != k {
        assert slots[i].buffptr == b;
      }
    }
    forall i, j | 0 <= i < j < |slots'| && slots'[i].buffptr != null
      ensures slots'[i].buffptr != slots'[j].buffptr
    {
      if i == k && slots[j].buffptr != null {
        assert slots[j].buffptr in Blocks(slots);
      } else if j == k {
        assert slots[i].buffptr in Blocks(slots);
      }
    }
  }

  /** The bytes an entry stands for. */
  ghost function Text(e: Entry): (t: seq<byte>)
    reads BlockOf(e)
  {
    if e.buffptr == null || e.size > e.buffptr.Length then [] else e.buffptr[..e.size]
  }

  ghost predicate Fits(e: Entry) {
    if e.buffptr == null then e.size == 0 else e.size <= e.buffptr.Length
  }

  ghost function Texts(log: seq<Entry>): (ts: seq<seq<byte>>)
    reads Blocks(log)
    ensures |ts| == |log|
    ensures forall i :: 0 <= i < |log| ==> ts[i] == Text(log[i])
  {
    seq(|log|, i requires 0 <= i < |log| reads Blocks(log) =>
      assert log[i].buffptr != null ==> log[i].buffptr in Blocks(log);
      Text(log[i]))
  }

  /** Every entry has a block and stays within it. */
  ghost predicate Held(log: seq<Entry>) {
    forall i :: 0 <= i < |log| ==> log[i].buffptr != null && Fits(log[i])
  }

  lemma PushHolds(n: nat, log: seq<Entry>, e: Entry)
    requires 0 < n && Held(log) && e.buffptr != null && Fits(e)
    ensures Held(Push(n, log, e))
    ensures Texts(Push(n, log, e)) == Push(n, Texts(log), Text(e))
  {
  }

  twostate lemma TextsUnchanged(log: seq<Entry>)
    requires forall i :: 0 <= i < |log| ==> Text(log[i]) == old(Text(log[i]))
    ensures Texts(log) == old(Texts(log))
  {
  }

  class AesdDev {
    const buffer: Ring
    const heap: Allocator
    var newEntry: Entry

    /**
     Every live block belongs to exactly one ring slot or to the pending entry, which may also have
     been allocated with no bytes; every entry held stays within its block.
     */
    ghost predicate Valid()
      reads this, buffer, buffer.entry, heap
    {
      && buffer.Valid() && buffer.entry.Length == MAX_WRITE_OPERATIONS
      && heap.Valid()
      && NoSharing(buffer.entry[..])
      && BlockOf(newEntry) !! Blocks(buffer.entry[..]) && heap.zeroSize !in Blocks(buffer.entry[..])
      && heap.live == Blocks(buffer.entry[..]) + (BlockOf(newEntry) - {heap.zeroSize})
      && Fits(newEntry)
      && Held(buffer.Log())
    }

    /** The device as committed writes and pending bytes. */
    ghost function View(): Device
      requires Valid()
      reads this, buffer, buffer.entry, heap, heap.live, heap.zeroSize
    {
      assert Blocks(buffer.Log()) <= Blocks(buffer.entry[..]);
      Device(Texts(buffer.Log()), Text(newEntry))
    }

    constructor Init()
      ensures Valid() && View() == INITIAL.dev
      ensures fresh(buffer) && fresh(buffer.entry) && fresh(heap) && heap.allocations == {}
    {
      buffer := new Ring.Init(MAX_WRITE_OPERATIONS);
      heap := new Allocator();
      newEntry := EMPTY;
    }

    /** What the searches see of an entry is the length of its text. */
    lemma SizesAreLengths()
      requires Valid()
      ensures Sizes(buffer.Log()) == CountedSizes(buffer.Log()) == Lengths(View().log)
    {
    }

    /** Hands out bytes from the file's position to the end of their entry at most, and moves the position. */
    method Read(filp: File, count: nat) returns (ret: int, data: seq<byte>)
      requires Valid()
      modifies filp
      ensures data == ReadAt(old(View()), old(filp.fPos), count) && ret == |data|
      ensures filp.fPos == old(filp.fPos) + |data|
    {
      SizesAreLengths();
      var slot, offset := buffer.FindEntryOffsetForFpos(filp.fPos, 0);
      if slot.None? {
        return 0, [];
      }
      var entry := buffer.entry[slot.value];
      var num := Min(count, entry.size - offset);
      data := entry.buffptr[offset..offset + num];
      filp.fPos := filp.fPos + num;
      ret := num;
    }

    /** Makes room for `count` more bytes in the pending entry's block, or moves it to a larger one. */
    method Reserve(count: nat)
      requires Valid()
      modifies this`newEntry, heap
      ensures Valid() && View() == old(View()) && newEntry.size == old(newEntry.size)
      ensures newEntry.buffptr != null && newEntry.size + count <= newEntry.buffptr.Length
      ensures newEntry.buffptr == old(newEntry.buffptr) || newEntry.buffptr == heap.zeroSize || fresh(newEntry.buffptr)
      ensures fresh(heap.live - old(heap.live)) && old(heap.allocations) <= heap.allocations
    {
      ghost var was := Text(newEntry);
      var p := heap.Krealloc(newEntry.buffptr, newEntry.size + count);
      newEntry := newEntry.(buffptr := p);
      assert p[..newEntry.size] == was;
    }

    /** Puts bytes there is room for behind the pending entry's. */
    method Fill(kbuf: seq<byte>)
      requires Valid() && newEntry.buffptr != null && newEntry.size + |kbuf| <= newEntry.buffptr.Length
      modifies this`newEntry, if kbuf == [] then {} else {newEntry.buffptr}
      ensures Valid() && newEntry == old(newEntry).(size := old(newEntry.size) + |kbuf|)
      ensures View() == Device(old(View().log), old(View().pending) + kbuf)
    {
      ghost var was, log := Text(newEntry), buffer.Log();
      Memcpy(newEntry.buffptr, newEntry.size, kbuf);
      TextsUnchanged(log);
      newEntry := newEntry.(size := newEntry.size + |kbuf|);
      assert Text(newEntry) == was + kbuf;
    }

    /** The pending entry grows by the new bytes, in its block or in a larger one. */
    method Append(kbuf: seq<byte>)
      requires Valid()
      modifies this`newEntry, heap, BlockOf(newEntry) - {heap.zeroSize}
      ensures Valid() && newEntry.size == old(newEntry.size) + |kbuf|
      ensures View() == Device(old(View().log), old(View().pending) + kbuf)
      ensures fresh(heap.live - old(heap.live))
      ensures old(heap.allocations) <= heap.allocations
    {
      Reserve(|kbuf|);
      Fill(kbuf);
    }

    /** The blocks change hands: pending to ring, replaced to free. */
    method StoreEntry()
      requires Valid() && 0 < newEntry.size
      modifies this`newEntry, buffer, buffer.entry, heap
      ensures Valid() && newEntry == EMPTY
      ensures buffer.Log() == Push(MAX_WRITE_OPERATIONS, old(buffer.Log()), old(newEntry))
      ensures heap.live <= old(heap.live) && heap.allocations == old(heap.allocations)
    {
      ghost var slots, k := buffer.entry[..], buffer.inOffs;
      BlocksAfterUpdate(slots, k, newEntry);
      var toFree := buffer.AddEntry(newEntry);
      assert BlockOf(slots[k]) == if toFree == null then {} else {toFree};
      if toFree != null {
        heap.Kfree(toFree);
      }
      newEntry := EMPTY;
    }

    /** The pending entry enters the ring; the block of the entry it replaces is freed. */
    method Commit()
      requires Valid() && 0 < newEntry.size
      modifies this`newEntry, buffer, buffer.entry, heap
      ensures Valid()
      ensures View() == Device(Push(MAX_WRITE_OPERATIONS, old(View().log), old(View().pending)), [])
      ensures heap.live <= old(heap.live) && heap.allocations == old(heap.allocations)
    {
      ghost var log, e := buffer.Log(), newEntry;
      StoreEntry();
      TextsUnchanged(log);
      PushHolds(MAX_WRITE_OPERATIONS, log, e);
    }

    /** Appends to the pending entry and, when the new bytes have a newline, commits it. */
    method Write(kbuf: seq<byte>) returns (ret: int)
      requires Valid()
      modifies this`newEntry, buffer, buffer.entry, heap, BlockOf(newEntry) - {heap.zeroSize}
      ensures Valid() && View() == WriteTo(old(View()), kbuf) && ret == |kbuf|
      ensures fresh(heap.live - old(heap.live))
      ensures old(heap.allocations) <= heap.allocations
    {
      var writeToCb, i := false, 0;
      while i < |kbuf|
        invariant 0 <= i <= |kbuf| && !writeToCb
        invariant !HasNewline(kbuf[..i])
      {
        if kbuf[i] == NEWLINE {
          writeToCb := true;
          break;
        }
        i := i + 1;
      }
      assert writeToCb == HasNewline(kbuf);
      Append(kbuf);
      if writeToCb {
        Commit();
      }
      return |kbuf|;
    }

    /** Moves the position as `whence` says, unless that leaves the data. */
    method Llseek(filp: File, offset: int, whence: int) returns (ret: int)
      requires Valid()
      modifies filp
      ensures ret == LlseekFrom(old(View()), old(filp.fPos), offset, whence)
      ensures filp.fPos == if ret < 0 then old(filp.fPos) else ret
    {
      SizesAreLengths();
      ghost var sizes := Lengths(View().log);
      var total := buffer.GetLength();
      assert total == Sum(sizes);
      var newFPos;
      if whence == SEEK_SET {
        newFPos := offset;
      } else if whence == SEEK_CUR {
        newFPos := filp.fPos + offset;
      } else if whence == SEEK_END {
        newFPos := total + offset;
      } else {
        return EINVAL;
      }
      if newFPos < 0 || newFPos > total {
        return EINVAL;
      }
      filp.fPos := newFPos;
      return newFPos;
    }

    /** The seek command: moves the position to a byte of a write. */
    method Ioctl(filp: File, cmd: nat, writeCmd: nat, writeCmdOffset: nat) returns (ret: int)
      requires Valid()
      modifies filp
      ensures var pos := SeektoIn(old(View()), writeCmd, writeCmdOffset);
              && ret == (if cmd != IOCSEEKTO then ENOTTY else if pos == -1 then EINVAL else 0)
              && filp.fPos == if ret == 0 then pos else old(filp.fPos)
    {
      if cmd != IOCSEEKTO {
        return ENOTTY;
      }
      SizesAreLengths();
      var newFPos := buffer.FindSeektoFpos(writeCmd, writeCmdOffset);
      if newFPos == -1 {
        return EINVAL;
      }
      filp.fPos := newFPos;
      return 0;
    }

    /** Unloading the module: afterwards every block ever allocated has been freed exactly once. */
    method Cleanup()
      requires Valid()
      modifies buffer.entry, heap
      ensures heap.live == {} && heap.frees == multiset(heap.allocations)
      ensures heap.allocations == old(heap.allocations)
    {
      ghost var slots := buffer.entry[..];
      var index := 0;
      while index < buffer.entry.Length
        invariant 0 <= index <= |slots| == buffer.entry.Length
        invariant buffer.entry[index..] == slots[index..]
        invariant heap.Valid() && heap.allocations == old(heap.allocations)
        invariant heap.live == Blocks(slots[index..]) + (BlockOf(newEntry) - {heap.zeroSize})
      {
        BlocksSplit(slots, index);
        if buffer.entry[index].buffptr != null {
          heap.Kfree(buffer.entry[index].buffptr);
          buffer.entry[index] := buffer.entry[index].(buffptr := null);
        }
        index := index + 1;
      }
      if newEntry.buffptr != null {
        heap.Kfree(newEntry.buffptr);
      }
    }
  }

  lemma BlocksSplit(slots: seq<Entry>, k: nat)
    requires k < |slots| && NoSharing(slots)
    ensures Blocks(slots[k..]) == Blocks(slots[k + 1..]) + BlockOf(slots[k])
    ensures BlockOf(slots[k]) !! Blocks(slots[k + 1..])
    ensures Blocks(slots[k..]) <= Blocks(slots)
  {
  }
}
