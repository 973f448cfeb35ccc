/**
 What the reads of one file give out over a run, while other files are read, written and sought.
 */
module Streams {
  import opened Bytes
  import opened BoundedLog
  import opened DeviceModel
  import opened Runs

  /** No seek of the file; anything else, by anyone, may happen. */
  predicate Unsought(fd: nat, ops: seq<Op>) {
    forall k :: 0 <= k < |ops| ==> !((ops[k].Llseek? || ops[k].Ioctl?) && ops[k].fd == fd)
  }

  /** Everything the reads of one file give out during a run. */
  function Stream(s: Sys, ops: seq<Op>, fd: nat): seq<byte>
    decreases |ops|
  {
    if ops == [] then []
    else StreamOf(s, ops[0], fd) + Stream(Step(s, ops[0]).0, ops[1..], fd)
  }

  /** What one file's reads give out in one step. */
  function StreamOf(s: Sys, op: Op, fd: nat): seq<byte> {
    if op.Read? && op.fd == fd then Step(s, op).1.data else []
  }

  lemma {:induction false} StreamConcat(s: Sys, a: seq<Op>, b: seq<Op>, fd: nat)
    ensures Stream(s, a + b, fd) == Stream(s, a, fd) + Stream(Exec(s, a), b, fd)
    decreases |a|
  {
    if a == [] {
      assert a + b == b;
    } else {
      assert (a + b)[1..] == a[1..] + b;
      StreamConcat(Step(s, a[0]).0, a[1..], b, fd);
      Assoc(StreamOf(s, a[0], fd), Stream(Step(s, a[0]).0, a[1..], fd), Stream(Exec(s, a), b, fd));
    }
  }

  lemma StreamOneMore(s: Sys, a: seq<Op>, op: Op, fd: nat)
    ensures Stream(s, a + [op], fd) == Stream(s, a, fd) + StreamOf(Exec(s, a), op, fd)
  {
    StreamConcat(s, a, [op], fd);
    var one := [op];
    assert one[1..] == [];
    assert Stream(Exec(s, a), one, fd) == StreamOf(Exec(s, a), op, fd) + [];
  }

  /** Without seeks, the position is moved by what the reads give out and by nothing else. */
  lemma {:induction false} PositionFollowsStream(s: Sys, ops: seq<Op>, fd: nat)
    requires fd < |s.cursors| && Unsought(fd, ops)
    ensures fd < |Exec(s, ops).cursors| && Exec(s, ops).cursors[fd] == s.cursors[fd] + |Stream(s, ops, fd)|
    decreases |ops|
  {
    if ops == [] {
    } else {
      assert !((ops[0].Llseek? || ops[0].Ioctl?) && ops[0].fd == fd);
      PositionFollowsStream(Step(s, ops[0]).0, ops[1..], fd);
    }
  }

  /** The place in the history that the reads of a file have reached: before it, each byte was given out or missed. */
  function Reached(s: Sys, ops: seq<Op>, fd: nat): nat
    requires fd < |s.cursors|
  {
    |Evicted(s, ops)| + s.cursors[fd] + |Stream(s, ops, fd)|
  }

  /**
   A read after `a`, unless empty, gives out the history of any longer run from the place that lies
   behind all that was evicted and all that was read before it.
   */
  predicate InPlace(s: Sys, a: seq<Op>, fd: nat, n: nat, b: seq<Op>)
    requires fd < |s.cursors|
  {
    var data := ReadOut(s, a, fd, n);
    data == [] || IsSliceAt(data, History(s, a + b), Reached(s, a, fd))
  }

  /** Where each read of a stream comes from, evictions included. */
  lemma PlaceOfRead(s: Sys, a: seq<Op>, fd: nat, n: nat, b: seq<Op>)
    requires |s.dev.log| <= MAX_WRITE_OPERATIONS
    requires fd < |s.cursors| && Unsought(fd, a)
    ensures InPlace(s, a, fd, n, b)
  {
    PositionFollowsStream(s, a, fd);
    ReadReturnsHistory(s, a, fd, n, b);
  }

  /** The reads of a file before, at and after one of them. */
  lemma ReadOfStream(s: Sys, a: seq<Op>, fd: nat, n: nat, b: seq<Op>)
    requires |s.dev.log| <= MAX_WRITE_OPERATIONS
    requires fd < |s.cursors| && Unsought(fd, a)
    ensures var one := [Read(fd, n)];
            && Stream(s, a + one + b, fd) == Stream(s, a, fd) + ReadOut(s, a, fd, n) + Stream(Exec(s, a + one), b, fd)
            && InPlace(s, a, fd, n, one + b)
  {
    StreamConcat(s, a + [Read(fd, n)], b, fd);
    StreamOneMore(s, a, Read(fd, n), fd);
    PlaceOfRead(s, a, fd, n, [Read(fd, n)] + b);
  }

  /** Every entry ever held has a newline. */
  lemma EverHasNewlines(s: Sys, ops: seq<Op>)
    requires Inv(s.dev)
    ensures forall e :: e in Ever(s, ops) ==> HasNewline(e)
  {
    PacketsCompleted(s.dev.pending, Writes(s, ops));
    forall e | e in Ever(s, ops)
      ensures HasNewline(e)
    {
      if e in Committed(s, ops) {
        var data :| data in Writes(s, ops) && CompletedBy(e, data);
        assert e[|e| - |data|..] == data;
      }
    }
  }

  lemma FlattenNonEmpty(ss: seq<seq<byte>>)
    requires ss != [] && HasNewline(ss[0])
    ensures Flatten(ss) != []
  {
  }

  /** Once more than ten entries were held, some bytes are evicted. */
  lemma OverflowEvicts(s: Sys, ops: seq<Op>)
    requires Inv(s.dev) && |Ever(s, ops)| > MAX_WRITE_OPERATIONS
    ensures Evicted(s, ops) != []
  {
    EverHasNewlines(s, ops);
    var gone := AllButLast(MAX_WRITE_OPERATIONS, Ever(s, ops));
    assert gone[0] == Ever(s, ops)[0];
    FlattenNonEmpty(gone);
  }

  /** An operation that commits makes the history longer. */
  lemma CommitExtends(s: Sys, a: seq<Op>, op: Op)
    requires Inv(s.dev)
    ensures |Ever(s, a)| <= |Ever(s, a + [op])| && |History(s, a)| <= |History(s, a + [op])|
    ensures |Ever(s, a)| < |Ever(s, a + [op])| ==> |History(s, a)| < |History(s, a + [op])|
  {
    EverConcat(s, a, [op]);
    EverHasNewlines(s, a + [op]);
    var x, y := Ever(s, a), Ever(s, a + [op]);
    var more := y[|x|..];
    assert y == x + more;
    FlattenConcat(x, more);
    if more != [] {
      assert more[0] == y[|x|];
      FlattenNonEmpty(more);
    }
  }

  lemma ReadCommitsNothing(s: Sys, a: seq<Op>, op: Op)
    requires op.Read?
    ensures Ever(s, a + [op]) == Ever(s, a) == Ever(s, a + [])
  {
    RunSnoc(s, a, op);
    assert Writes(s, a) + [] == Writes(s, a) && a + [] == a;
  }

  /**
   Reading never gets ahead of the history, and once anything is evicted it stays behind a history
   that reaches past the position the reads started from.
   */
  lemma {:induction false} StreamBehindHistory(s: Sys, ops: seq<Op>, fd: nat)
    requires Inv(s.dev) && fd < |s.cursors| && Unsought(fd, ops)
    ensures var p, h, out := s.cursors[fd], |History(s, ops)|, |Stream(s, ops, fd)|;
            && (out == 0 || p + out <= h)
            && (|Ever(s, ops)| > MAX_WRITE_OPERATIONS && p < h ==> p + out < h)
    decreases |ops|
  {
    if ops == [] {
      assert Ever(s, ops) == s.dev.log;
    } else {
      var a, op := ops[..|ops| - 1], ops[|ops| - 1];
      assert ops == a + [op];
      assert Unsought(fd, a);
      StreamBehindHistory(s, a, fd);
      StreamOneMore(s, a, op, fd);
      CommitExtends(s, a, op);
      if op.Read? && op.fd == fd {
        PositionFollowsStream(s, a, fd);
        ReadReturnsHistory(s, a, fd, op.count, []);
        ReadCommitsNothing(s, a, op);
        if |Ever(s, a)| > MAX_WRITE_OPERATIONS {
          OverflowEvicts(s, a);
        }
      }
    }
  }

  /**
   When a reader gets everything from its position on, to the end of all that is ever committed:
   exactly when there is nothing to get, or the entries fit, so that nothing is evicted, and it goes on
   until a read gives nothing. A reader that goes on so long lacks no more bytes than were evicted.
   */
  lemma StreamUntilEmpty(s: Sys, ops: seq<Op>, fd: nat, more: nat)
    requires Inv(s.dev) && fd < |s.cursors| && Unsought(fd, ops) && 0 < more
    ensures var p, h, out, done := s.cursors[fd], History(s, ops), Stream(s, ops, fd), ReadOut(s, ops, fd, more) == [];
            && (out == [] || p + |out| <= |h|)
            && (out == From(h, p) <==> |h| <= p || (|Ever(s, ops)| <= MAX_WRITE_OPERATIONS && done))
            && (done ==> |h| - |Evicted(s, ops)| <= p + |out|)
  {
    StreamBehindHistory(s, ops, fd);
    PositionFollowsStream(s, ops, fd);
    HistorySplits(s, ops);
    var t := Exec(s, ops);
    ReadIsSlice(t.dev, t.cursors[fd], more);
    if |Ever(s, ops)| <= MAX_WRITE_OPERATIONS {
      StreamIsContiguous(s, ops, fd);
      SliceToEnd(Stream(s, ops, fd), History(s, ops), s.cursors[fd]);
    }
  }

  /** While nothing is evicted, the reads give out one contiguous stretch of the history. */
  lemma StreamIsContiguous(s: Sys, ops: seq<Op>, fd: nat)
    requires fd < |s.cursors| && |Ever(s, ops)| <= MAX_WRITE_OPERATIONS && Unsought(fd, ops)
    ensures var p, t, out := s.cursors[fd], Exec(s, ops), Stream(s, ops, fd);
            && fd < |t.cursors| && t.cursors[fd] == p + |out|
            && Contents(t.dev) == History(s, ops)
            && (out == [] || IsSliceAt(out, History(s, ops), p))
  {
    DeviceIsLastPackets(s, ops);
    StreamInContents(s, ops, fd);
  }

  lemma {:induction false} StreamInContents(s: Sys, ops: seq<Op>, fd: nat)
    requires fd < |s.cursors| && |Ever(s, ops)| <= MAX_WRITE_OPERATIONS && Unsought(fd, ops)
    ensures var p, t, out := s.cursors[fd], Exec(s, ops), Stream(s, ops, fd);
            && fd < |t.cursors| && t.cursors[fd] == p + |out|
            && (out == [] || IsSliceAt(out, Contents(t.dev), p))
    decreases |ops|
  {
    if ops == [] {
    } else {
      var s', t := Step(s, ops[0]).0, Exec(s, ops);
      assert !((ops[0].Llseek? || ops[0].Ioctl?) && ops[0].fd == fd);
      EverAfterStep(s, ops);
      StepReads(s, ops[0], fd);
      StreamInContents(s', ops[1..], fd);
      ContentsGrow(s, ops);
      SliceJoin(StreamOf(s, ops[0], fd), Stream(s', ops[1..], fd), Contents(s.dev), Contents(t.dev), s.cursors[fd]);
    }
  }

  lemma StepReads(s: Sys, op: Op, fd: nat)
    requires fd < |s.cursors| && !((op.Llseek? || op.Ioctl?) && op.fd == fd)
    ensures var s', out := Step(s, op).0, StreamOf(s, op, fd);
            && fd < |s'.cursors| && s'.cursors[fd] == s.cursors[fd] + |out|
            && (out == [] || IsSliceAt(out, Contents(s.dev), s.cursors[fd]))
  {
    if op.Read? && op.fd == fd {
      ReadIsSlice(s.dev, s.cursors[fd], op.count);
    }
  }

  /** The reads of a file that nobody else disturbs. */
  function ReadsOf(fd: nat, counts: seq<nat>): (ops: seq<Op>)
    ensures |ops| == |counts|
  {
    seq(|counts|, k requires 0 <= k < |counts| => Read(fd, counts[k]))
  }

  /**
   Reading until a read gives nothing: whatever the positive sizes, the reads give out the contents
   from the position on, one after the other; once a further read gives nothing, all of them. That
   happens after no more reads than there are bytes left.
   */
  lemma ReadUntilEmpty(s: Sys, fd: nat, counts: seq<nat>, more: nat)
    requires fd < |s.cursors| && |s.dev.log| <= MAX_WRITE_OPERATIONS
    requires 0 < more && forall k :: 0 <= k < |counts| ==> 0 < counts[k]
    ensures var rest, ops := From(Contents(s.dev), s.cursors[fd]), ReadsOf(fd, counts);
            && Exec(s, ops).dev == s.dev
            && Stream(s, ops, fd) <= rest
            && (ReadOut(s, ops, fd, more) == [] <==> Stream(s, ops, fd) == rest)
            && (|counts| >= |rest| ==> Stream(s, ops, fd) == rest)
  {
    var ops := ReadsOf(fd, counts);
    ReadsWriteNothing(s, fd, counts);
    assert Ever(s, ops) == s.dev.log;
    StreamIsContiguous(s, ops, fd);
    var t := Exec(s, ops);
    ReadIsSlice(t.dev, t.cursors[fd], more);
    StreamProgress(s, fd, counts);
    SliceToEnd(Stream(s, ops, fd), Contents(s.dev), s.cursors[fd]);
  }

  lemma {:induction false} ReadsWriteNothing(s: Sys, fd: nat, counts: seq<nat>)
    ensures Writes(s, ReadsOf(fd, counts)) == []
    ensures Exec(s, ReadsOf(fd, counts)).dev == s.dev
    decreases |counts|
  {
    if counts == [] {
    } else {
      var ops := ReadsOf(fd, counts);
      ReadsWriteNothing(Step(s, ops[0]).0, fd, counts[1..]);
      assert ops[1..] == ReadsOf(fd, counts[1..]);
    }
  }

  lemma {:induction false} StreamProgress(s: Sys, fd: nat, counts: seq<nat>)
    requires fd < |s.cursors| && forall k :: 0 <= k < |counts| ==> 0 < counts[k]
    ensures |Stream(s, ReadsOf(fd, counts), fd)| >= Min(|counts|, |Contents(s.dev)| - s.cursors[fd])
    decreases |counts|
  {
    if counts == [] {
    } else {
      var ops := ReadsOf(fd, counts);
      ReadIsSlice(s.dev, s.cursors[fd], counts[0]);
      StreamProgress(Step(s, ops[0]).0, fd, counts[1..]);
      assert ops[1..] == ReadsOf(fd, counts[1..]);
    }
  }
}
