/**
 Whole runs: any operations on any files, in the order in which they take the device lock.
 */
module Runs {
  import opened Bytes
  import opened BoundedLog
  import opened DeviceModel

  function Exec(s: Sys, ops: seq<Op>): Sys
    decreases |ops|
  {
    if ops == [] then s else Exec(Step(s, ops[0]).0, ops[1..])
  }

  /** What the operations give out. */
  function Outs(s: Sys, ops: seq<Op>): (outs: seq<Out>)
    ensures |outs| == |ops|
    decreases |ops|
  {
    if ops == [] then [] else [Step(s, ops[0]).1] + Outs(Step(s, ops[0]).0, ops[1..])
  }

  /** The payloads of the writes that are accepted, in order. */
  function Writes(s: Sys, ops: seq<Op>): seq<seq<byte>>
    decreases |ops|
  {
    if ops == [] then []
    else WritesOf(s, ops[0]) + Writes(Step(s, ops[0]).0, ops[1..])
  }

  function WritesOf(s: Sys, op: Op): seq<seq<byte>> {
    if op.Write? && op.fd < |s.cursors| then [op.data] else []
  }

  /** What one more operation adds to a run. */
  lemma {:induction false} RunSnoc(s: Sys, ops: seq<Op>, op: Op)
    ensures Exec(s, ops + [op]) == Step(Exec(s, ops), op).0
    ensures Outs(s, ops + [op]) == Outs(s, ops) + [Step(Exec(s, ops), op).1]
    ensures Writes(s, ops + [op]) == Writes(s, ops) + WritesOf(Exec(s, ops), op)
    decreases |ops|
  {
    if ops == [] {
      assert [] + [op] == [op] && ([op])[1..] == [];
    } else {
      var s' := Step(s, ops[0]).0;
      RunSnoc(s', ops[1..], op);
      assert (ops + [op])[1..] == ops[1..] + [op];
      Assoc(WritesOf(s, ops[0]), Writes(s', ops[1..]), WritesOf(Exec(s, ops), op));
    }
  }

  /** Every byte accepted, in order. */
  function Accepted(s: Sys, ops: seq<Op>): seq<byte> {
    Flatten(Writes(s, ops))
  }

  /** Cutting the payloads into packets: a packet ends with the first payload that has a newline. */
  function Packets(pending: seq<byte>, ws: seq<seq<byte>>): seq<seq<byte>>
    decreases |ws|
  {
    if ws == [] then []
    else if HasNewline(ws[0]) then [pending + ws[0]] + Packets([], ws[1..])
    else Packets(pending + ws[0], ws[1..])
  }

  /** What is left over after the last packet. */
  function Leftover(pending: seq<byte>, ws: seq<seq<byte>>): seq<byte>
    decreases |ws|
  {
    if ws == [] then pending
    else if HasNewline(ws[0]) then Leftover([], ws[1..])
    else Leftover(pending + ws[0], ws[1..])
  }

  /** The packets committed during a run. */
  function Committed(s: Sys, ops: seq<Op>): seq<seq<byte>> {
    Packets(s.dev.pending, Writes(s, ops))
  }

  /** Every entry the device holds or ever held. */
  function Ever(s: Sys, ops: seq<Op>): seq<seq<byte>> {
    s.dev.log + Committed(s, ops)
  }

  /** All bytes ever committed, end to end. */
  function History(s: Sys, ops: seq<Op>): seq<byte> {
    Flatten(Ever(s, ops))
  }

  /** The bytes of the entries that are gone again. */
  function Evicted(s: Sys, ops: seq<Op>): seq<byte> {
    Flatten(AllButLast(MAX_WRITE_OPERATIONS, Ever(s, ops)))
  }

  /**
   The device after any run is a function of the accepted payloads alone: it holds the last ten
   packets they form and what is left over; reads, seeks and the interleaving have no part in it.
   */
  lemma {:induction false} DeviceIsLastPackets(s: Sys, ops: seq<Op>)
    requires |s.dev.log| <= MAX_WRITE_OPERATIONS
    ensures Exec(s, ops).dev == Device(LastN(MAX_WRITE_OPERATIONS, Ever(s, ops)),
                                       Leftover(s.dev.pending, Writes(s, ops)))
    decreases |ops|
  {
    if ops == [] {
      assert Ever(s, ops) == s.dev.log;
    } else {
      var s' := Step(s, ops[0]).0;
      DeviceIsLastPackets(s', ops[1..]);
      var rest := Writes(s', ops[1..]);
      if WritesOf(s, ops[0]) == [] {
        assert Writes(s, ops) == rest;
      } else {
        var data := ops[0].data;
        assert Writes(s, ops) == [data] + rest;
        assert Writes(s, ops)[1..] == rest;
        if HasNewline(data) {
          PushForgets(MAX_WRITE_OPERATIONS, s.dev.log, s.dev.pending + data, Packets([], rest));
        }
      }
    }
  }

  lemma {:induction false} PacketsConserve(pending: seq<byte>, ws: seq<seq<byte>>)
    ensures pending + Flatten(ws) == Flatten(Packets(pending, ws)) + Leftover(pending, ws)
    decreases |ws|
  {
    if ws == [] {
    } else {
      var whole := pending + ws[0];
      Assoc(pending, ws[0], Flatten(ws[1..]));
      if HasNewline(ws[0]) {
        PacketsConserve([], ws[1..]);
        var rest := Packets([], ws[1..]);
        assert ([whole] + rest)[1..] == rest;
        assert [] + Flatten(ws[1..]) == Flatten(ws[1..]);
        Assoc(whole, Flatten(rest), Leftover([], ws[1..]));
      } else {
        PacketsConserve(whole, ws[1..]);
      }
    }
  }

  lemma HistorySplits(s: Sys, ops: seq<Op>)
    requires |s.dev.log| <= MAX_WRITE_OPERATIONS
    ensures History(s, ops) == Evicted(s, ops) + Contents(Exec(s, ops).dev)
  {
    DeviceIsLastPackets(s, ops);
    var all := Ever(s, ops);
    FlattenConcat(AllButLast(MAX_WRITE_OPERATIONS, all), LastN(MAX_WRITE_OPERATIONS, all));
  }

  /** No accepted byte is lost, duplicated or reordered, over any run. */
  lemma Conservation(s: Sys, ops: seq<Op>)
    requires |s.dev.log| <= MAX_WRITE_OPERATIONS
    ensures var t := Exec(s, ops).dev;
            Contents(s.dev) + s.dev.pending + Accepted(s, ops) == Evicted(s, ops) + Contents(t) + t.pending
  {
    var t := Exec(s, ops).dev;
    HistorySplits(s, ops);
    assert t.pending == Leftover(s.dev.pending, Writes(s, ops)) by {
      DeviceIsLastPackets(s, ops);
    }
    PacketsConserve(s.dev.pending, Writes(s, ops));
    FlattenConcat(s.dev.log, Committed(s, ops));
    Regroup(Contents(s.dev), s.dev.pending, Accepted(s, ops), Flatten(Committed(s, ops)), t.pending,
            Evicted(s, ops), Contents(t));
  }

  lemma Regroup<T>(c: seq<T>, p: seq<T>, a: seq<T>, f: seq<T>, l: seq<T>, e: seq<T>, c': seq<T>)
    requires p + a == f + l && c + f == e + c'
    ensures c + p + a == e + c' + l
  {
    assert c + p + a == c + (p + a);
    assert c + (f + l) == (c + f) + l;
  }

  /** From a fresh device: everything written is gone, readable or waiting, in that order. */
  lemma ConservationFromInit(ops: seq<Op>)
    ensures var t := Exec(INITIAL, ops).dev;
            Accepted(INITIAL, ops) == Evicted(INITIAL, ops) + Contents(t) + t.pending
  {
    Conservation(INITIAL, ops);
    assert Contents(INITIAL.dev) + INITIAL.dev.pending + Accepted(INITIAL, ops) == Accepted(INITIAL, ops);
  }

  lemma {:induction false} InvOverRuns(s: Sys, ops: seq<Op>)
    requires Inv(s.dev)
    ensures Inv(Exec(s, ops).dev)
    decreases |ops|
  {
    if ops == [] {
    } else {
      InvOverRuns(Step(s, ops[0]).0, ops[1..]);
    }
  }

  /** The parts of a packet: bytes without a newline, then the payload that completes it. */
  ghost predicate CompletedBy(packet: seq<byte>, data: seq<byte>) {
    |data| <= |packet| && packet[|packet| - |data|..] == data && HasNewline(data)
    && !HasNewline(packet[..|packet| - |data|])
  }

  /** Every packet has its first newline in the payload that completed it, one of those written. */
  lemma {:induction false} PacketsCompleted(pending: seq<byte>, ws: seq<seq<byte>>)
    requires !HasNewline(pending)
    ensures forall packet :: packet in Packets(pending, ws) ==> exists data :: data in ws && CompletedBy(packet, data)
    ensures !HasNewline(Leftover(pending, ws))
    decreases |ws|
  {
    if ws == [] {
    } else {
      if HasNewline(ws[0]) {
        PacketsCompleted([], ws[1..]);
        assert (pending + ws[0])[..|pending|] == pending;
        assert CompletedBy(pending + ws[0], ws[0]);
      } else {
        PacketsCompleted(pending + ws[0], ws[1..]);
      }
    }
  }

  lemma {:induction false} ExecConcat(s: Sys, a: seq<Op>, b: seq<Op>)
    ensures Exec(s, a + b) == Exec(Exec(s, a), b)
    ensures Writes(s, a + b) == Writes(s, a) + Writes(Exec(s, a), b)
    decreases |a|
  {
    if a == [] {
      assert a + b == b;
    } else {
      ExecConcat(Step(s, a[0]).0, a[1..], b);
      assert (a + b)[1..] == a[1..] + b;
    }
  }

  lemma {:induction false} PacketsConcat(p: seq<byte>, a: seq<seq<byte>>, b: seq<seq<byte>>)
    ensures Packets(p, a + b) == Packets(p, a) + Packets(Leftover(p, a), b)
    ensures Leftover(p, a + b) == Leftover(Leftover(p, a), b)
    decreases |a|
  {
    if a == [] {
      assert a + b == b;
    } else {
      assert (a + b)[1..] == a[1..] + b;
      PacketsConcat(if HasNewline(a[0]) then [] else p + a[0], a[1..], b);
    }
  }

  /** What a run goes on to commit comes behind everything held before. */
  lemma EverConcat(s: Sys, a: seq<Op>, b: seq<Op>)
    ensures Ever(s, a + b) == Ever(s, a) + Packets(Leftover(s.dev.pending, Writes(s, a)), Writes(Exec(s, a), b))
  {
    var more := Packets(Leftover(s.dev.pending, Writes(s, a)), Writes(Exec(s, a), b));
    ExecConcat(s, a, b);
    PacketsConcat(s.dev.pending, Writes(s, a), Writes(Exec(s, a), b));
    Assoc(s.dev.log, Committed(s, a), more);
  }

  /** History only grows at its end, and bytes once evicted stay so. */
  lemma HistoryGrows(s: Sys, a: seq<Op>, b: seq<Op>)
    ensures History(s, a) <= History(s, a + b)
    ensures Evicted(s, a) <= Evicted(s, a + b)
  {
    EverConcat(s, a, b);
    FlattenGrows(MAX_WRITE_OPERATIONS, Ever(s, a), Ever(s, a + b)[|Ever(s, a)|..]);
  }

  lemma FlattenGrows<T>(n: nat, x: seq<seq<T>>, more: seq<seq<T>>)
    ensures Flatten(x) <= Flatten(x + more)
    ensures Flatten(AllButLast(n, x)) <= Flatten(AllButLast(n, x + more))
  {
    FlattenConcat(x, more);
    AllButLastGrows(n, x, more);
    FlattenPrefix(AllButLast(n, x), AllButLast(n, x + more));
  }

  lemma AllButLastGrows<T>(n: nat, x: seq<T>, more: seq<T>)
    ensures AllButLast(n, x) <= AllButLast(n, x + more)
  {
    assert AllButLast(n, x) == (x + more)[..|AllButLast(n, x)|];
  }

  lemma FlattenPrefix<T>(a: seq<seq<T>>, b: seq<seq<T>>)
    requires a <= b
    ensures Flatten(a) <= Flatten(b)
  {
    assert b == a + b[|a|..];
    FlattenConcat(a, b[|a|..]);
  }

  /** The place in the history at which the file's next read starts. */
  function Place(s: Sys, ops: seq<Op>, fd: nat): nat
    requires fd < |Exec(s, ops).cursors|
  {
    |Evicted(s, ops)| + Exec(s, ops).cursors[fd]
  }

  function ReadOut(s: Sys, ops: seq<Op>, fd: nat, count: nat): seq<byte> {
    Step(Exec(s, ops), Read(fd, count)).1.data
  }

  /** After any run, a read gives out the history from its place on; so it still does in every longer run. */
  lemma ReadReturnsHistory(s: Sys, ops: seq<Op>, fd: nat, count: nat, later: seq<Op>)
    requires |s.dev.log| <= MAX_WRITE_OPERATIONS
    requires fd < |Exec(s, ops).cursors|
    ensures var data, at, h := ReadOut(s, ops, fd, count), Place(s, ops, fd), History(s, ops + later);
            data != [] ==> IsSliceAt(data, h, at)
  {
    HistorySplits(s, ops);
    HistoryGrows(s, ops, later);
    var t := Exec(s, ops);
    var f, data := t.cursors[fd], ReadOut(s, ops, fd, count);
    ReadIsSlice(t.dev, f, count);
    if data != [] {
      assert Evicted(s, ops) + Contents(t.dev) <= History(s, ops + later);
      SliceShift(data, Evicted(s, ops), Contents(t.dev), History(s, ops + later), f);
    }
  }

  /** Nothing in `ops` moves the position of the file. */
  predicate Quiet(fd: nat, ops: seq<Op>) {
    forall k :: 0 <= k < |ops| ==> !((ops[k].Read? || ops[k].Llseek? || ops[k].Ioctl?) && ops[k].fd == fd)
  }

  lemma {:induction false} QuietKeepsCursor(s: Sys, ops: seq<Op>, fd: nat)
    requires fd < |s.cursors| && Quiet(fd, ops)
    ensures fd < |Exec(s, ops).cursors| && Exec(s, ops).cursors[fd] == s.cursors[fd]
    decreases |ops|
  {
    if ops == [] {
    } else {
      assert !((ops[0].Read? || ops[0].Llseek? || ops[0].Ioctl?) && ops[0].fd == fd);
      QuietKeepsCursor(Step(s, ops[0]).0, ops[1..], fd);
    }
  }

  function WithCursor(s: Sys, fd: nat, pos: nat): Sys
    requires fd < |s.cursors|
  {
    s.(cursors := s.cursors[fd := pos])
  }

  /** Operations that do not move a file's position do not depend on it either. */
  lemma {:induction false} QuietIgnoresCursor(s: Sys, ops: seq<Op>, fd: nat, pos: nat)
    requires fd < |s.cursors| && Quiet(fd, ops)
    ensures fd < |Exec(s, ops).cursors|
    ensures Exec(WithCursor(s, fd, pos), ops) == WithCursor(Exec(s, ops), fd, pos)
    ensures Outs(WithCursor(s, fd, pos), ops) == Outs(s, ops)
    decreases |ops|
  {
    if ops == [] {
    } else {
      var s' := Step(s, ops[0]).0;
      assert !((ops[0].Read? || ops[0].Llseek? || ops[0].Ioctl?) && ops[0].fd == fd);
      QuietIgnoresCursorOnce(s, ops[0], fd, pos);
      QuietIgnoresCursor(s', ops[1..], fd, pos);
    }
  }

  lemma QuietIgnoresCursorOnce(s: Sys, op: Op, fd: nat, pos: nat)
    requires fd < |s.cursors| && !((op.Read? || op.Llseek? || op.Ioctl?) && op.fd == fd)
    ensures fd < |Step(s, op).0.cursors|
    ensures Step(WithCursor(s, fd, pos), op) == (WithCursor(Step(s, op).0, fd, pos), Step(s, op).1)
  {
    var p: seq<nat>, added: seq<nat> := s.cursors, [0];
    if op.Open? {
      assert p[fd := pos] + added == (p + added)[fd := pos];
    } else if op.fd < |p| && op.fd != fd {
      var x := Step(s, op).0.cursors[op.fd];
      assert p[fd := pos][op.fd := x] == p[op.fd := x][fd := pos];
    }
  }

  /**
   A seek as the program performs it: the device is looked at under the lock, `between` happens after
   the lock is released, then the position is worked out and set.
   */
  function LateSeek(s: Sys, op: Op, between: seq<Op>): (Sys, int)
    requires (op.Llseek? || op.Ioctl?) && op.fd < |s.cursors| && Quiet(op.fd, between)
  {
    QuietKeepsCursor(s, between, op.fd);
    var t := Exec(s, between);
    match op
    case Llseek(fd, offset, whence) =>
      var r := LlseekFrom(s.dev, t.cursors[fd], offset, whence);
      (if r < 0 then t else WithCursor(t, fd, r), r)
    case Ioctl(fd, cmd, c, o) =>
      var r := SeektoIn(s.dev, c, o);
      if cmd != IOCSEEKTO then (t, ENOTTY) else if r == -1 then (t, EINVAL) else (WithCursor(t, fd, r), 0)
  }

  /**
   It is no different from a seek done in one step when the lock was held, whatever others do in
   between, as long as nobody moves the position of the same file meanwhile.
   */
  lemma LateSeekIsAtomic(s: Sys, op: Op, between: seq<Op>)
    requires (op.Llseek? || op.Ioctl?) && op.fd < |s.cursors| && Quiet(op.fd, between)
    ensures var (s', out) := Step(s, op);
            && LateSeek(s, op, between) == (Exec(s', between), out.ret)
            && Outs(s, between) == Outs(s', between)
  {
    var s' := Step(s, op).0;
    QuietKeepsCursor(s, between, op.fd);
    QuietIgnoresCursor(s, between, op.fd, s'.cursors[op.fd]);
    assert s' == WithCursor(s, op.fd, s'.cursors[op.fd]);
    assert s' == s ==> Exec(s, between) == WithCursor(Exec(s, between), op.fd, s.cursors[op.fd]);
  }

  /**
   Two reads of one file with anything but a seek or read of that file in between, anywhere in a
   run: both are slices of the run's history, the second starts behind the first, and the gap is
   exactly as long as what was evicted in between.
   */
  lemma ConsecutiveReads(s: Sys, before: seq<Op>, fd: nat, n1: nat, between: seq<Op>, n2: nat, later: seq<Op>)
    requires |s.dev.log| <= MAX_WRITE_OPERATIONS
    requires fd < |Exec(s, before).cursors| && Quiet(fd, between)
    ensures var upTo := before + [Read(fd, n1)] + between;
            var h := History(s, upTo + later);
            var d1, d2 := ReadOut(s, before, fd, n1), ReadOut(s, upTo, fd, n2);
            && fd < |Exec(s, upTo).cursors|
            && |Evicted(s, before)| <= |Evicted(s, upTo)|
            && Place(s, upTo, fd) == Place(s, before, fd) + |d1| + (|Evicted(s, upTo)| - |Evicted(s, before)|)
            && (d1 != [] ==> IsSliceAt(d1, h, Place(s, before, fd)))
            && (d2 != [] ==> IsSliceAt(d2, h, Place(s, upTo, fd)))
  {
    var read := [Read(fd, n1)];
    var upTo := before + read + between;
    assert upTo == before + (read + between);
    assert upTo + later == before + (read + between + later);
    ExecConcat(s, before, read + between);
    ExecConcat(Exec(s, before), read, between);
    var t := Exec(s, before);
    var t1 := Step(t, Read(fd, n1)).0;
    assert Exec(t, read) == t1 by {
      assert read[1..] == [];
    }
    QuietKeepsCursor(t1, between, fd);
    HistoryGrows(s, before, read + between);
    ReadReturnsHistory(s, before, fd, n1, read + between + later);
    ReadReturnsHistory(s, upTo, fd, n2, later);
  }

  /** While nothing is evicted, the entries ever held are the same seen from one step later. */
  lemma EverAfterStep(s: Sys, ops: seq<Op>)
    requires ops != [] && |Ever(s, ops)| <= MAX_WRITE_OPERATIONS
    ensures Ever(Step(s, ops[0]).0, ops[1..]) == Ever(s, ops)
    ensures Contents(s.dev) <= Contents(Step(s, ops[0]).0.dev)
  {
    var s' := Step(s, ops[0]).0;
    var rest := Writes(s', ops[1..]);
    if WritesOf(s, ops[0]) == [] {
      assert Writes(s, ops) == rest;
    } else {
      var ws, data := Writes(s, ops), ops[0].data;
      assert ws[0] == data && ws[1..] == rest;
      WriteShiftsContents(s.dev, data);
      if HasNewline(data) {
        assert Committed(s, ops) == [s.dev.pending + data] + Packets([], rest);
        Assoc(s.dev.log, [s.dev.pending + data], Packets([], rest));
      }
    }
  }

  lemma ContentsGrow(s: Sys, ops: seq<Op>)
    requires |Ever(s, ops)| <= MAX_WRITE_OPERATIONS
    ensures Contents(s.dev) <= Contents(Exec(s, ops).dev)
  {
    DeviceIsLastPackets(s, ops);
    FlattenPrefix(s.dev.log, Ever(s, ops));
  }

  /** Every file's position lies within the data, the end included. */
  ghost predicate InRange(s: Sys) {
    forall fd :: 0 <= fd < |s.cursors| ==> s.cursors[fd] <= |Contents(s.dev)|
  }

  /** A step that takes some position out of the data. */
  ghost predicate Strands(s: Sys, op: Op) {
    exists fd :: 0 <= fd < |s.cursors| && (CutOff(s, op, fd) || SeeksPastEnd(s, op, fd))
  }

  lemma StrandsExactly(s: Sys, op: Op)
    requires Inv(s.dev) && InRange(s)
    ensures InRange(Step(s, op).0) <==> !Strands(s, op)
  {
    var s' := Step(s, op).0;
    forall fd | 0 <= fd < |s.cursors|
      ensures fd < |s'.cursors|
      ensures s'.cursors[fd] > |Contents(s'.dev)| <==> CutOff(s, op, fd) || SeeksPastEnd(s, op, fd)
    {
      CursorStaysInRange(s, op, fd);
    }
  }

  /**
   Over a whole run, evictions included, every position stays within the data at all times exactly
   when no step is one of the two kinds that take a position out of it.
   */
  lemma {:induction false} CursorsStayInRange(s: Sys, ops: seq<Op>)
    requires Inv(s.dev) && InRange(s)
    ensures (forall k :: 0 <= k <= |ops| ==> InRange(Exec(s, ops[..k])))
       <==> (forall k :: 0 <= k < |ops| ==> !Strands(Exec(s, ops[..k]), ops[k]))
    decreases |ops|
  {
    if ops == [] {
      assert forall k :: 0 <= k <= |ops| ==> ops[..k] == [];
    } else {
      var last := |ops| - 1;
      var a, t := ops[..last], Exec(s, ops[..last]);
      assert forall k :: 0 <= k <= last ==> a[..k] == ops[..k];
      CursorsStayInRange(s, a);
      assert ops[..|ops|] == ops == a + [ops[last]];
      RunSnoc(s, a, ops[last]);
      InvOverRuns(s, a);
      if InRange(t) {
        StrandsExactly(t, ops[last]);
      }
    }
  }

  /** Seek commands of a run name one of the first ten writes. */
  predicate NamesWrites(ops: seq<Op>) {
    forall k :: 0 <= k < |ops| ==> ops[k].Ioctl? ==> ops[k].writeCmd < MAX_WRITE_OPERATIONS
  }

  /** In particular, over a run that evicts nothing and names a write in its seek commands, none leaves it. */
  lemma {:induction false} FittingRunStaysInRange(s: Sys, ops: seq<Op>)
    requires Inv(s.dev) && |Ever(s, ops)| <= MAX_WRITE_OPERATIONS && NamesWrites(ops)
    requires InRange(s)
    ensures InRange(Exec(s, ops))
    decreases |ops|
  {
    if ops == [] {
    } else {
      var s' := Step(s, ops[0]).0;
      EverAfterStep(s, ops);
      assert ops[0].Ioctl? ==> ops[0].writeCmd < MAX_WRITE_OPERATIONS;
      if WritesOf(s, ops[0]) != [] && HasNewline(ops[0].data) {
        CommitIsCounted(s, ops);
      }
      forall fd | 0 <= fd < |s'.cursors|
        ensures s'.cursors[fd] <= |Contents(s'.dev)|
      {
        if fd < |s.cursors| {
          CursorStaysInRange(s, ops[0], fd);
        }
      }
      FittingRunStaysInRange(s', ops[1..]);
    }
  }

  lemma CommitIsCounted(s: Sys, ops: seq<Op>)
    requires ops != [] && WritesOf(s, ops[0]) != [] && HasNewline(ops[0].data)
    ensures |Ever(s, ops)| > |s.dev.log|
  {
  }
}
