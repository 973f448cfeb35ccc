/**
 Which bytes of the history a file's reads give out, byte by byte, when entries may be evicted between
 them, and when a client's reply has the packet it wrote itself.
 */
module Delivery {
  import opened Bytes
  import opened BoundedLog
  import opened DeviceModel
  import opened Runs
  import opened Streams
  import opened SeekCommand
  import opened Server
  import opened Connections

  /** How many bytes an operation evicts: those of the oldest entry, when it commits to a full ring. */
  function Evicts(s: Sys, op: Op): nat {
    if op.Write? && op.fd < |s.cursors| && HasNewline(op.data) && |s.dev.log| == MAX_WRITE_OPERATIONS
    then |s.dev.log[0]| else 0
  }

  /** What is ever held after one more operation. */
  lemma EverOneMore(s: Sys, a: seq<Op>, op: Op)
    ensures var t := Exec(s, a);
            Ever(s, a + [op]) == Ever(s, a) +
              if op.Write? && op.fd < |t.cursors| && HasNewline(op.data)
              then [Leftover(s.dev.pending, Writes(s, a)) + op.data] else []
  {
    var t, pending := Exec(s, a), Leftover(s.dev.pending, Writes(s, a));
    EverConcat(s, a, [op]);
    var one := [op];
    assert one[1..] == [] && Writes(t, one) == WritesOf(t, op) + [];
    if WritesOf(t, op) != [] {
      var w := [op.data];
      assert w[1..] == [] && Packets(pending, w) == if HasNewline(op.data) then [pending + op.data] else [];
    }
  }

  lemma EvictedOneMore(s: Sys, a: seq<Op>, op: Op)
    requires |s.dev.log| <= MAX_WRITE_OPERATIONS
    ensures |Evicted(s, a + [op])| == |Evicted(s, a)| + Evicts(Exec(s, a), op)
  {
    var t, all := Exec(s, a), Ever(s, a);
    EverOneMore(s, a, op);
    DeviceIsLastPackets(s, a);
    if op.Write? && op.fd < |t.cursors| && HasNewline(op.data) {
      var e := Leftover(s.dev.pending, Writes(s, a)) + op.data;
      assert Ever(s, a + [op]) == all + [e] && t.dev.log == LastN(MAX_WRITE_OPERATIONS, all);
      DropOneMore(MAX_WRITE_OPERATIONS, all, e);
      if |all| >= MAX_WRITE_OPERATIONS {
        FlattenOneMore(AllButLast(MAX_WRITE_OPERATIONS, all), t.dev.log[0]);
      }
    } else {
      assert Ever(s, a + [op]) == all + [] == all;
    }
  }

  lemma DropOneMore<T>(n: nat, all: seq<T>, e: T)
    requires 0 < n
    ensures |all| < n ==> AllButLast(n, all + [e]) == AllButLast(n, all) == []
    ensures |all| >= n ==> AllButLast(n, all + [e]) == AllButLast(n, all) + [LastN(n, all)[0]]
  {
    if |all| >= n {
      var m := |all| - n;
      assert (all + [e])[..m + 1] == all[..m] + [all[m]];
    }
  }

  lemma FlattenOneMore(ss: seq<seq<byte>>, e: seq<byte>)
    ensures Flatten(ss + [e]) == Flatten(ss) + e
  {
    FlattenConcat(ss, [e]);
    FlattenSingle(e);
  }

  lemma ReachedOneMore(s: Sys, a: seq<Op>, op: Op, fd: nat)
    requires |s.dev.log| <= MAX_WRITE_OPERATIONS && fd < |s.cursors|
    ensures Reached(s, a + [op], fd) == Reached(s, a, fd) + |StreamOf(Exec(s, a), op, fd)| + Evicts(Exec(s, a), op)
  {
    EvictedOneMore(s, a, op);
    StreamOneMore(s, a, op, fd);
  }

  /** Where in the history each byte that the reads give out comes from. */
  function Given(s: Sys, ops: seq<Op>, fd: nat): (places: seq<nat>)
    requires fd < |s.cursors|
    decreases |ops|
  {
    if ops == [] then []
    else
      var a, op := ops[..|ops| - 1], ops[|ops| - 1];
      Given(s, a, fd) + Range(Reached(s, a, fd), |StreamOf(Exec(s, a), op, fd)|)
  }

  function Range(from: nat, n: nat): (r: seq<nat>)
    ensures |r| == n && forall i :: 0 <= i < n ==> r[i] == from + i
  {
    seq(n, i => from + i)
  }

  lemma GivenOneMore(s: Sys, a: seq<Op>, op: Op, fd: nat)
    requires fd < |s.cursors|
    ensures Given(s, a + [op], fd) == Given(s, a, fd) + Range(Reached(s, a, fd), |StreamOf(Exec(s, a), op, fd)|)
  {
    assert (a + [op])[..|a|] == a;
  }

  /** The bytes given out are those of the history at these places. */
  predicate Matches(out: seq<byte>, history: seq<byte>, places: seq<nat>) {
    |places| == |out| && forall i :: 0 <= i < |places| ==> places[i] < |history| && out[i] == history[places[i]]
  }

  lemma MatchesOneMore(out: seq<byte>, h: seq<byte>, places: seq<nat>, data: seq<byte>, h': seq<byte>, at: nat)
    requires Matches(out, h, places) && h <= h' && (data == [] || IsSliceAt(data, h', at))
    ensures Matches(out + data, h', places + Range(at, |data|))
  {
  }

  lemma {:induction false} GivenMatches(s: Sys, ops: seq<Op>, fd: nat)
    requires |s.dev.log| <= MAX_WRITE_OPERATIONS && fd < |s.cursors| && Unsought(fd, ops)
    ensures Matches(Stream(s, ops, fd), History(s, ops), Given(s, ops, fd))
    decreases |ops|
  {
    if ops == [] {
    } else {
      var a, op := ops[..|ops| - 1], ops[|ops| - 1];
      var data := StreamOf(Exec(s, a), op, fd);
      assert ops == a + [op] && Unsought(fd, a);
      GivenMatches(s, a, fd);
      StreamOneMore(s, a, op, fd);
      GivenOneMore(s, a, op, fd);
      HistoryGrows(s, a, [op]);
      if op.Read? && op.fd == fd {
        PlaceOfRead(s, a, fd, op.count, [op]);
        assert data == ReadOut(s, a, fd, op.count);
      }
      MatchesOneMore(Stream(s, a, fd), History(s, a), Given(s, a, fd), data, History(s, ops), Reached(s, a, fd));
    }
  }

  predicate Increasing(xs: seq<nat>) {
    forall i, j :: 0 <= i < j < |xs| ==> xs[i] < xs[j]
  }

  predicate Below(xs: seq<nat>, bound: nat) {
    forall i :: 0 <= i < |xs| ==> xs[i] < bound
  }

  lemma InOrderOneMore(xs: seq<nat>, at: nat, n: nat)
    requires Increasing(xs) && Below(xs, at)
    ensures Increasing(xs + Range(at, n)) && Below(xs + Range(at, n), at + n)
  {
  }

  /** Nothing is given out twice or out of order. */
  lemma {:induction false} GivenInOrder(s: Sys, ops: seq<Op>, fd: nat)
    requires |s.dev.log| <= MAX_WRITE_OPERATIONS && fd < |s.cursors|
    ensures Increasing(Given(s, ops, fd)) && Below(Given(s, ops, fd), Reached(s, ops, fd))
    decreases |ops|
  {
    if ops == [] {
    } else {
      var a, op := ops[..|ops| - 1], ops[|ops| - 1];
      assert ops == a + [op];
      GivenInOrder(s, a, fd);
      GivenOneMore(s, a, op, fd);
      ReachedOneMore(s, a, op, fd);
      InOrderOneMore(Given(s, a, fd), Reached(s, a, fd), |StreamOf(Exec(s, a), op, fd)|);
    }
  }

  /**
   The operation evicts bytes from the front; the file's position is not moved, so it now stands for a
   place further on in the history, and byte `h` is one of those passed over.
   */
  predicate PassesOver(s: Sys, a: seq<Op>, op: Op, fd: nat, h: nat)
    requires fd < |s.cursors|
  {
    Reached(s, a, fd) <= h < Reached(s, a, fd) + Evicts(Exec(s, a), op)
  }

  lemma {:induction false} ReachedGrows(s: Sys, ops: seq<Op>, k: nat, n: nat, fd: nat)
    requires |s.dev.log| <= MAX_WRITE_OPERATIONS && fd < |s.cursors| && k < n <= |ops|
    ensures Reached(s, ops[..k], fd) + Evicts(Exec(s, ops[..k]), ops[k]) <= Reached(s, ops[..n], fd)
    decreases n
  {
    var a, op := ops[..n - 1], ops[n - 1];
    assert ops[..n] == a + [op];
    ReachedOneMore(s, a, op, fd);
    if k == n - 1 {
    } else {
      ReachedGrows(s, ops, k, n - 1, fd);
    }
  }

  /** Some eviction passes over the byte. */
  predicate Missed(s: Sys, ops: seq<Op>, fd: nat, h: nat)
    requires fd < |s.cursors|
  {
    exists k :: 0 <= k < |ops| && PassesOver(s, ops[..k], ops[k], fd, h)
  }

  lemma MissedOneMore(s: Sys, a: seq<Op>, op: Op, fd: nat, h: nat)
    requires fd < |s.cursors|
    ensures Missed(s, a + [op], fd, h) <==> Missed(s, a, fd, h) || PassesOver(s, a, op, fd, h)
  {
    var n, ops := |a|, a + [op];
    forall k | 0 <= k < n
      ensures ops[k] == a[k] && ops[..k] == a[..k]
    {
    }
    assert ops[n] == op && ops[..n] == a;
    if PassesOver(s, a, op, fd, h) {
      assert PassesOver(s, ops[..n], ops[n], fd, h);
    }
  }

  lemma MissedIsReached(s: Sys, ops: seq<Op>, fd: nat, h: nat)
    requires |s.dev.log| <= MAX_WRITE_OPERATIONS && fd < |s.cursors| && Missed(s, ops, fd, h)
    ensures h < Reached(s, ops, fd)
  {
    var k :| 0 <= k < |ops| && PassesOver(s, ops[..k], ops[k], fd, h);
    ReachedGrows(s, ops, k, |ops|, fd);
    assert ops[..|ops|] == ops;
  }

  /** Given out are exactly the bytes from the file's position to the place reached that no eviction passes over. */
  lemma {:induction false} GivenExactly(s: Sys, ops: seq<Op>, fd: nat, h: nat)
    requires |s.dev.log| <= MAX_WRITE_OPERATIONS && fd < |s.cursors|
    ensures h in Given(s, ops, fd) <==> s.cursors[fd] <= h < Reached(s, ops, fd) && !Missed(s, ops, fd, h)
    decreases |ops|
  {
    if ops == [] {
      assert Evicted(s, ops) == [];
    } else {
      var a, op := ops[..|ops| - 1], ops[|ops| - 1];
      assert ops == a + [op];
      GivenExactly(s, a, fd, h);
      MissedOneMore(s, a, op, fd, h);
      if Missed(s, a, fd, h) {
        MissedIsReached(s, a, fd, h);
      }
      InRangeExactly(Reached(s, a, fd), |StreamOf(Exec(s, a), op, fd)|, h);
      ReachedOneMore(s, a, op, fd);
    }
  }

  lemma InRangeExactly(from: nat, n: nat, h: nat)
    ensures h in Range(from, n) <==> from <= h < from + n
  {
    if from <= h < from + n {
      assert Range(from, n)[h - from] == h;
    }
  }

  // ---- A stretch of the history

  /** All bytes of the history from `p` up to `q` are given out. */
  predicate GivenWhole(s: Sys, ops: seq<Op>, fd: nat, p: nat, q: nat)
    requires fd < |s.cursors|
  {
    forall h :: p <= h < q ==> h in Given(s, ops, fd)
  }

  /** Before the stretch is read to its end, the operation evicts bytes and so moves the reads on into or past it. */
  predicate CutsInto(s: Sys, a: seq<Op>, op: Op, fd: nat, p: nat, q: nat)
    requires fd < |s.cursors|
  {
    var at, n := Reached(s, a, fd), Evicts(Exec(s, a), op);
    0 < n && at < q && p < at + n
  }

  predicate Uncut(s: Sys, ops: seq<Op>, fd: nat, p: nat, q: nat)
    requires fd < |s.cursors|
  {
    forall k :: 0 <= k < |ops| ==> !CutsInto(s, ops[..k], ops[k], fd, p, q)
  }

  lemma GivenWholeExactly(s: Sys, ops: seq<Op>, fd: nat, p: nat, q: nat)
    requires |s.dev.log| <= MAX_WRITE_OPERATIONS && fd < |s.cursors| && s.cursors[fd] <= p < q
    ensures GivenWhole(s, ops, fd, p, q) <==> q <= Reached(s, ops, fd) && Uncut(s, ops, fd, p, q)
  {
    if GivenWhole(s, ops, fd, p, q) {
      GivenExactly(s, ops, fd, q - 1);
      forall k | 0 <= k < |ops|
        ensures !CutsInto(s, ops[..k], ops[k], fd, p, q)
      {
        var at := Reached(s, ops[..k], fd);
        var h := if at < p then p else at;
        assert CutsInto(s, ops[..k], ops[k], fd, p, q) ==> p <= h < q && PassesOver(s, ops[..k], ops[k], fd, h);
        GivenExactly(s, ops, fd, h);
      }
    } else {
      var h :| p <= h < q && h !in Given(s, ops, fd);
      GivenExactly(s, ops, fd, h);
      if Missed(s, ops, fd, h) {
        var k :| 0 <= k < |ops| && PassesOver(s, ops[..k], ops[k], fd, h);
        assert CutsInto(s, ops[..k], ops[k], fd, p, q);
      }
    }
  }

  /** What is given out of a stretch as a whole is given out in one piece. */
  lemma GivenInOnePiece(s: Sys, ops: seq<Op>, fd: nat, p: nat, q: nat)
    requires |s.dev.log| <= MAX_WRITE_OPERATIONS && fd < |s.cursors| && Unsought(fd, ops)
    requires p < q <= |History(s, ops)| && GivenWhole(s, ops, fd, p, q)
    ensures IsWithin(History(s, ops)[p..q], Stream(s, ops, fd))
  {
    var places, out, h := Given(s, ops, fd), Stream(s, ops, fd), History(s, ops);
    GivenMatches(s, ops, fd);
    GivenInOrder(s, ops, fd);
    var i := InARow(places, p, q);
    assert places[i..i + (q - p)] == Range(p, q - p);
    MatchesInOnePiece(out, h, places, i, p, q);
  }

  lemma MatchesInOnePiece(out: seq<byte>, h: seq<byte>, places: seq<nat>, i: nat, p: nat, q: nat)
    requires Matches(out, h, places) && p < q <= |h|
    requires i + (q - p) <= |places| && places[i..i + (q - p)] == Range(p, q - p)
    ensures IsSliceAt(h[p..q], out, i)
  {
    forall j | 0 <= j < q - p
      ensures out[i..i + (q - p)][j] == h[p..q][j]
    {
      assert places[i..i + (q - p)][j] == p + j;
    }
  }

  lemma {:induction false} InARow(xs: seq<nat>, p: nat, q: nat) returns (i: nat)
    requires Increasing(xs) && p < q && forall h :: p <= h < q ==> h in xs
    ensures i + (q - p) <= |xs| && xs[i..i + (q - p)] == Range(p, q - p)
    decreases q
  {
    if q == p + 1 {
      assert p in xs;
      i :| 0 <= i < |xs| && xs[i] == p;
      assert xs[i..i + (q - p)] == [p] == Range(p, q - p);
    } else {
      i := InARow(xs, p, q - 1);
      var n := q - 1 - p;
      assert xs[i + n - 1] == xs[i..i + n][n - 1] == Range(p, n)[n - 1] == q - 2;
      assert q - 1 in xs;
      forall j | i + n < j < |xs|
        ensures xs[j] > q - 1
      {
        assert xs[i + n - 1] < xs[i + n] < xs[j];
      }
      assert xs[i + n] == q - 1;
      assert xs[i..i + (n + 1)] == xs[i..i + n] + [q - 1] == Range(p, n + 1);
    }
  }

  /** Reads that go on until one gives nothing get to the end of the history. */
  lemma ReachedAll(s: Sys, ops: seq<Op>, fd: nat, more: nat)
    requires |s.dev.log| <= MAX_WRITE_OPERATIONS && fd < |s.cursors| && Unsought(fd, ops) && 0 < more
    ensures ReadOut(s, ops, fd, more) == [] ==> |History(s, ops)| <= Reached(s, ops, fd)
  {
    var t := Exec(s, ops);
    PositionFollowsStream(s, ops, fd);
    HistorySplits(s, ops);
    ReadIsSlice(t.dev, t.cursors[fd], more);
  }

  lemma SlicePrefix(a: seq<byte>, b: seq<byte>, p: nat, q: nat)
    requires a <= b && p <= q <= |a|
    ensures b[p..q] == a[p..q]
  {
    assert b[..|a|] == a;
  }

  /**
   The reads give out what the contents hold from `p` up to `q` to begin with, as a whole, exactly when
   they get to its end and no eviction cuts into it before; they do get there when they go on until one
   gives nothing. Given out as a whole, it is in one piece.
   */
  ghost predicate WholeWhenUncut(s: Sys, ops: seq<Op>, fd: nat, p: nat, q: nat, more: nat)
    requires fd < |s.cursors| && p <= q <= |Contents(s.dev)|
  {
    && (GivenWhole(s, ops, fd, p, q) <==> q <= Reached(s, ops, fd) && Uncut(s, ops, fd, p, q))
    && (ReadOut(s, ops, fd, more) == [] ==> q <= Reached(s, ops, fd))
    && (GivenWhole(s, ops, fd, p, q) ==> IsWithin(Contents(s.dev)[p..q], Stream(s, ops, fd)))
  }

  lemma ContentsGivenWhole(s: Sys, ops: seq<Op>, fd: nat, p: nat, q: nat, more: nat)
    requires Inv(s.dev) && fd < |s.cursors| && s.cursors[fd] <= p < q <= |Contents(s.dev)|
    requires Unsought(fd, ops) && 0 < more
    ensures WholeWhenUncut(s, ops, fd, p, q, more)
  {
    GivenWholeExactly(s, ops, fd, p, q);
    ReachedAll(s, ops, fd, more);
    FlattenPrefix(s.dev.log, Ever(s, ops));
    SlicePrefix(Contents(s.dev), History(s, ops), p, q);
    if GivenWhole(s, ops, fd, p, q) {
      GivenInOnePiece(s, ops, fd, p, q);
    }
  }

  // ---- A client's own packet

  predicate EndsWith(c: seq<byte>, packet: seq<byte>) {
    |packet| <= |c| && c[|c| - |packet|..|c|] == packet
  }

  /** The packet is the end of the contents; the reads give it out as a whole exactly when it is not cut into. */
  ghost predicate PacketRule(s: Sys, packet: seq<byte>, fd: nat, ops: seq<Op>, more: nat) {
    var q := |Contents(s.dev)|;
    && fd < |s.cursors| && EndsWith(Contents(s.dev), packet)
    && WholeWhenUncut(s, ops, fd, q - |packet|, q, more)
  }

  lemma LastPacket(s: Sys, packet: seq<byte>, fd: nat, ops: seq<Op>, more: nat)
    requires Inv(s.dev) && fd < |s.cursors| && s.cursors[fd] == 0
    requires 0 < |packet| && EndsWith(Contents(s.dev), packet)
    requires Unsought(fd, ops) && 0 < more
    ensures PacketRule(s, packet, fd, ops, more)
  {
    var q := |Contents(s.dev)|;
    ContentsGivenWhole(s, ops, fd, q - |packet|, q, more);
  }

  /**
   When a client that wrote a packet gets it back as a whole, whatever others do while it reads: the
   packet is the end of the contents when the lock is released, so that is when the reads get that far
   and no eviction cuts into it before it was read.
   */
  lemma OwnPacketInReply(s: Sys, chunks: seq<seq<byte>>, ops: seq<Op>, more: nat)
    requires Inv(s.dev) && EndsAtNewline(chunks) && HasNewline(Flatten(chunks)) && Request(chunks) == None
    requires Unsought(|s.cursors|, ops) && 0 < more
    ensures PacketRule(AfterLock(s, chunks), Flatten(chunks), |s.cursors|, ops, more)
  {
    AfterData(s, chunks);
    JustWritten(s.dev, Flatten(chunks));
    LastPacket(AfterLock(s, chunks), Flatten(chunks), |s.cursors|, ops, more);
  }

  lemma AfterData(s: Sys, chunks: seq<seq<byte>>)
    requires EndsAtNewline(chunks) && Request(chunks) == None
    ensures AfterLock(s, chunks) == Sys(WriteTo(s.dev, Flatten(chunks)), s.cursors + [0])
  {
    LockedCallsTakeEffect(s, chunks);
    PacketCommit(s.dev, chunks);
    assert Effect(s.dev, Request(chunks), chunks) == (WriteTo(s.dev, Flatten(chunks)), 0);
  }

  /** A packet is the end of the contents when it has just been written. */
  lemma JustWritten(d: Device, packet: seq<byte>)
    requires Inv(d) && HasNewline(packet)
    ensures Inv(WriteTo(d, packet)) && 0 < |packet| && EndsWith(Contents(WriteTo(d, packet)), packet)
  {
    WriteKeepsInv(d, packet);
    WriteShiftsContents(d, packet);
    Assoc(Contents(d), d.pending, packet);
    EndStays(Contents(d) + d.pending, packet, EvictedBytes(d, packet));
  }

  lemma EndStays(a: seq<byte>, b: seq<byte>, k: nat)
    requires k <= |a|
    ensures EndsWith((a + b)[k..], b)
  {
  }
}
