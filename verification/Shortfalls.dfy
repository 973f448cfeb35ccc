/**
 Runs from a freshly loaded device on which things fail that the interface suggests: that a position
 lies within the data, that a reader gets what is written after it has caught up, that packets of
 different clients stay apart, that a client's reply has the packet it sent, and that a number too large
 is refused.
 */
module Shortfalls {
  import opened Bytes
  import opened BoundedLog
  import opened DeviceModel
  import opened Runs
  import opened Streams
  import opened SeekCommand
  import opened Server
  import opened Connections

  function Repeat<T>(x: T, n: nat): (r: seq<T>)
    ensures |r| == n && forall k :: 0 <= k < n ==> r[k] == x
  {
    seq(n, _ => x)
  }

  /** One file is opened and the packet is written to it `n` times. */
  function Filling(packet: seq<byte>, n: nat): seq<Op> {
    [Open] + Repeat(Write(0, packet), n)
  }

  /** Any number of equal packets, written to a device on which nothing is pending. */
  lemma {:induction false} Refilling(s: Sys, packet: seq<byte>, n: nat)
    requires |s.dev.log| <= MAX_WRITE_OPERATIONS && s.dev.pending == [] && s.cursors != [] && HasNewline(packet)
    ensures Exec(s, Repeat(Write(0, packet), n))
         == Sys(Device(LastN(MAX_WRITE_OPERATIONS, s.dev.log + Repeat(packet, n)), []), s.cursors)
  {
    var write := Write(0, packet);
    if n == 0 {
      assert Repeat(write, 0) == [] && s.dev.log + Repeat(packet, 0) == s.dev.log;
    } else {
      var before, all := Repeat(write, n - 1), s.dev.log + Repeat(packet, n - 1);
      Refilling(s, packet, n - 1);
      WriteOnce(s, before, all, packet);
      assert Repeat(write, n) == before + [write];
      assert s.dev.log + Repeat(packet, n) == all + [packet];
    }
  }

  lemma WriteOnce(s: Sys, before: seq<Op>, all: seq<seq<byte>>, packet: seq<byte>)
    requires s.cursors != [] && HasNewline(packet)
    requires Exec(s, before) == Sys(Device(LastN(MAX_WRITE_OPERATIONS, all), []), s.cursors)
    ensures Exec(s, before + [Write(0, packet)])
         == Sys(Device(LastN(MAX_WRITE_OPERATIONS, all + [packet]), []), s.cursors)
  {
    RunSnoc(s, before, Write(0, packet));
    PushLast(MAX_WRITE_OPERATIONS, all, packet);
    assert [] + packet == packet;
  }

  lemma FillingFills(packet: seq<byte>, n: nat)
    requires HasNewline(packet) && n <= MAX_WRITE_OPERATIONS
    ensures Exec(INITIAL, Filling(packet, n)) == Sys(Device(Repeat(packet, n), []), [0])
  {
    var atOpen, writes := Sys(INITIAL.dev, [0]), Repeat(Write(0, packet), n);
    assert Step(INITIAL, Open).0.cursors == [0];
    assert Filling(packet, n)[1..] == writes;
    Refilling(atOpen, packet, n);
    assert [] + Repeat(packet, n) == Repeat(packet, n);
  }

  lemma {:induction false} SumOfRepeat(m: nat, n: nat)
    ensures Sum(Repeat<nat>(m, n)) == m * n
  {
    if n == 0 {
    } else {
      SumOfRepeat(m, n - 1);
      assert Repeat<nat>(m, n)[1..] == Repeat<nat>(m, n - 1);
    }
  }

  /** The device after ten equal packets. */
  function Full(packet: seq<byte>): Device {
    Device(Repeat(packet, MAX_WRITE_OPERATIONS), [])
  }

  lemma SizesWhenFull(packet: seq<byte>)
    ensures Lengths(Full(packet).log) == Repeat<nat>(|packet|, 10)
    ensures |Contents(Full(packet))| == |packet| * 10
  {
    SumOfRepeat(|packet|, 10);
    assert Lengths(Full(packet).log) == Repeat<nat>(|packet|, 10);
    assert |Contents(Full(packet))| == Sum(Repeat<nat>(|packet|, 10));
  }

  /** Ten writes of a newline, then the seek command for write 10, byte 1: accepted, position 11 of 10. */
  lemma SeekPastEndRun()
    ensures var ops := Filling([NEWLINE], 10) + [Ioctl(0, IOCSEEKTO, 10, 1)];
            && Outs(INITIAL, ops)[|ops| - 1].ret == 0
            && Exec(INITIAL, ops).cursors == [11]
            && |Contents(Exec(INITIAL, ops).dev)| == 10
  {
    var fill, seek := Filling([NEWLINE], 10), Ioctl(0, IOCSEEKTO, 10, 1);
    FillingFills([NEWLINE], 10);
    SizesWhenFull([NEWLINE]);
    var sizes := Lengths(Full([NEWLINE]).log);
    assert sizes[..10] == sizes;
    RunSnoc(INITIAL, fill, seek);
  }

  /** Ten packets are written; the reader goes to the end of the data. */
  function CatchingUp(w: seq<byte>): seq<Op> {
    Filling(w, 10) + [Llseek(0, 0, SEEK_END)]
  }

  lemma CaughtUp(w: seq<byte>)
    requires HasNewline(w)
    ensures Exec(INITIAL, CatchingUp(w)) == Sys(Full(w), [|w| * 10]) && |Contents(Full(w))| == |w| * 10
  {
    FillingFills(w, 10);
    SizesWhenFull(w);
    RunSnoc(INITIAL, Filling(w, 10), Llseek(0, 0, SEEK_END));
  }

  /** Ten writes of two bytes, a reader at the end: a write of a newline leaves it at 20 with 19 bytes of data. */
  lemma CutOffRun()
    ensures var ops := CatchingUp([120, NEWLINE]);
            && Exec(INITIAL, ops).cursors == [20] && |Contents(Exec(INITIAL, ops).dev)| == 20
            && var t := Exec(INITIAL, ops + [Write(0, [NEWLINE])]);
            t.cursors == [20] && |Contents(t.dev)| == 19
  {
    var w := [120, NEWLINE];
    CaughtUp(w);
    RunSnoc(INITIAL, CatchingUp(w), Write(0, [NEWLINE]));
    WriteShiftsContents(Full(w), [NEWLINE]);
  }

  /** A reader at the end of ten packets `w` misses as much of the next packet as `w` is long. */
  lemma ReadAfterEviction(w: seq<byte>, packet: seq<byte>, n: nat)
    requires HasNewline(packet) && |w| < |packet| <= n
    ensures ReadAt(WriteTo(Full(w), packet), |w| * 10, n) == packet[|w|..]
  {
    var d, d' := Full(w), WriteTo(Full(w), packet);
    assert [] + packet == packet;
    assert d.log[1..] == Repeat(w, 9);
    assert d'.log == Repeat(w, 9) + [packet];
    var sizes := Lengths(d'.log);
    assert sizes[..9] == Repeat<nat>(|w|, 9);
    SumOfRepeat(|w|, 9);
    FoundIsLocated(sizes, 9, |w|, |w| * 10);
  }

  lemma MissedBytes(w: seq<byte>, packet: seq<byte>, n: nat)
    requires HasNewline(w) && HasNewline(packet) && |w| < |packet| <= n
    ensures ReadOut(INITIAL, CatchingUp(w) + [Write(0, packet)], 0, n) == packet[|w|..]
  {
    CaughtUp(w);
    RunSnoc(INITIAL, CatchingUp(w), Write(0, packet));
    ReadAfterEviction(w, packet, n);
  }

  /** In the same state, a write of "abc" and a newline is given out from the "c" on. */
  lemma MissedBytesRun()
    ensures var ops := CatchingUp([120, NEWLINE]) + [Write(0, [97, 98, 99, NEWLINE])];
            ReadOut(INITIAL, ops, 0, 1024) == [99, NEWLINE]
  {
    var packet := [97, 98, 99, NEWLINE];
    MissedBytes([120, NEWLINE], packet, 1024);
    assert packet[2..] == [99, NEWLINE];
  }

  // ---- Connections

  lemma ShortIsNoCommand(packet: seq<byte>)
    requires |packet| < |SEEKTO_COMMAND|
    ensures Request([packet]) == None
  {
    ScannedSingle(packet);
  }

  /** A client that sends a short packet in one piece. */
  lemma OnePieceWritten(s: Sys, packet: seq<byte>)
    requires |packet| < |SEEKTO_COMMAND|
    ensures AfterLock(s, [packet]) == Sys(WriteTo(s.dev, packet), s.cursors + [0])
  {
    var chunks := [packet];
    ShortIsNoCommand(packet);
    LockedCallsTakeEffect(s, chunks);
    assert chunks[1..] == [];
    assert WriteAll(s.dev, chunks) == WriteAll(WriteTo(s.dev, packet), chunks[1..]);
  }

  /** A client's stream ends before a newline, the next client's packet has one: they become one entry. */
  lemma TwoClients(a: seq<byte>, b: seq<byte>)
    requires |a| < |SEEKTO_COMMAND| && |b| < |SEEKTO_COMMAND| && !HasNewline(a) && HasNewline(b)
    ensures Exec(INITIAL, LockedCalls(0, [a]) + LockedCalls(1, [b])) == Sys(Device([a + b], []), [0, 0])
    ensures DataPackets([Connection(0, [a]), Connection(1, [b])]) == [a, b]
  {
    OnePieceWritten(INITIAL, a);
    var s := AfterLock(INITIAL, [a]);
    assert [] + a == a;
    assert s == Sys(Device([], a), [0]);
    OnePieceWritten(s, b);
    assert WriteTo(s.dev, b) == Device([a + b], []);
    ExecConcat(INITIAL, LockedCalls(0, [a]), LockedCalls(1, [b]));
    ShortIsNoCommand(a);
    ShortIsNoCommand(b);
    OnePacket(Connection(0, [a]), [Connection(1, [b])]);
    OnePacket(Connection(1, [b]), []);
    FlattenSingle(a);
    FlattenSingle(b);
  }

  lemma OnePacket(first: Connection, rest: seq<Connection>)
    requires Request(first.chunks) == None
    ensures DataPackets([first] + rest) == [Flatten(first.chunks)] + DataPackets(rest)
  {
    var all := [first] + rest;
    assert all[0] == first && all[1..] == rest;
  }

  /** One client sends "ab" and closes, the next sends "c" and a newline: the single entry "abc" is committed. */
  lemma MixingRun()
    ensures var ab, c := [97, 98], [99, NEWLINE];
            && DataPackets([Connection(0, [ab]), Connection(1, [c])]) == [ab, c]
            && Exec(INITIAL, LockedCalls(0, [ab]) + LockedCalls(1, [c])).dev == Device([[97, 98, 99, NEWLINE]], [])
  {
    var ab: seq<byte>, c: seq<byte> := [97, 98], [99, NEWLINE];
    TwoClients(ab, c);
    assert ab + c == [97, 98, 99, NEWLINE];
  }

  /** A file nobody touches gives out nothing; what it is then read for is the contents at that time. */
  lemma ReadLate(s: Sys, others: seq<Op>, fd: nat, counts: seq<nat>, more: nat)
    requires |s.dev.log| <= MAX_WRITE_OPERATIONS && fd < |s.cursors| && s.cursors[fd] == 0 && Quiet(fd, others)
    requires 0 < more && forall k :: 0 <= k < |counts| ==> 0 < counts[k]
    requires |Contents(Exec(s, others).dev)| <= |counts|
    ensures var ops := others + ReadsOf(fd, counts);
            Stream(s, ops, fd) == Contents(Exec(s, others).dev) && ReadOut(s, ops, fd, more) == []
  {
    var t, ops := Exec(s, others), ReadsOf(fd, counts);
    QuietKeepsCursor(s, others, fd);
    PositionFollowsStream(s, others, fd);
    DeviceIsLastPackets(s, others);
    ReadUntilEmpty(t, fd, counts, more);
    StreamConcat(s, others, ops, fd);
    assert Stream(s, others, fd) == [];
    ExecConcat(s, others, ops);
  }

  /**
   The ring is full and a client's "ab" and a newline is committed; before the client reads its reply,
   another one writes ten packets. The client then reads until nothing comes, and gets those ten, and
   not its own.
   */
  lemma LostPacketRun()
    ensures var x, ab, c := [120, NEWLINE], [97, 98, NEWLINE], [99, NEWLINE];
            var s := AfterLock(Exec(INITIAL, Filling(x, 10)), [ab]);
            var ops := Repeat(Write(0, c), 10) + ReadsOf(1, Repeat(BUFFER_SIZE, 20));
            && s.dev.log == Repeat(x, 9) + [ab]
            && Stream(s, ops, 1) == Flatten(Repeat(c, 10))
            && ReadOut(s, ops, 1, BUFFER_SIZE) == []
  {
    var x: seq<byte>, ab: seq<byte>, c: seq<byte> := [120, NEWLINE], [97, 98, NEWLINE], [99, NEWLINE];
    var full := Exec(INITIAL, Filling(x, 10));
    FillingFills(x, 10);
    OnePieceWritten(full, ab);
    assert [] + ab == ab && Repeat(x, 10)[1..] == Repeat(x, 9);
    var s := AfterLock(full, [ab]);
    Refilling(s, c, 10);
    assert LastN(MAX_WRITE_OPERATIONS, s.dev.log + Repeat(c, 10)) == Repeat(c, 10);
    SizesWhenFull(c);
    ReadLate(s, Repeat(Write(0, c), 10), 1, Repeat(BUFFER_SIZE, 20), BUFFER_SIZE);
  }

  // ---- A number too large

  lemma TwoWrites(first: seq<byte>, second: seq<byte>)
    requires HasNewline(first) && HasNewline(second)
    ensures Exec(INITIAL, [Open] + [Write(0, first)] + [Write(0, second)]) == Sys(Device([first, second], []), [0])
  {
    RunSnoc(INITIAL, [], Open);
    assert [] + [Open] == [Open] && INITIAL.cursors + [0] == [0];
    RunSnoc(INITIAL, [Open], Write(0, first));
    RunSnoc(INITIAL, [Open] + [Write(0, first)], Write(0, second));
    assert [] + first == first && [] + second == second && [] + [first] == [first];
    assert [first] + [second] == [first, second];
  }

  /**
   Two packets are written and a client asks, in two pieces, for a byte of write 4294967297: it is sent
   the rest of write 1 from that byte on, though there is no such write.
   */
  lemma WrapRun(first: seq<byte>, second: seq<byte>, o: nat)
    requires HasNewline(first) && HasNewline(second) && o <= |second| && o < 0x1_0000_0000
    ensures Exec(INITIAL, [Open] + [Write(0, first)] + [Write(0, second)]) == Sys(Device([first, second], []), [0])
    ensures var d := Device([first, second], []);
            Outcome(d, [SEEKTO_COMMAND + Ascii("4294967297"), [COMMA] + Decimal(o) + [NEWLINE]], true)
            == (d, second[o..])
  {
    var ds, os := Ascii("4294967297"), Decimal(o);
    WrappingDigits();
    WrapsToOne(Value(ds));
    OffsetOfDecimal(o);
    TwoWrites(first, second);
    WriteOneAnswered(first, second, ds, os, o);
  }

  lemma WriteOneAnswered(first: seq<byte>, second: seq<byte>, ds: seq<byte>, os: seq<byte>, o: nat)
    requires AllDigits(ds) && Wraps(1, Value(ds))
    requires AllDigits(os) && DropCommas(os) == os && Value(os) == o && o <= |second| && o < 0x1_0000_0000
    ensures var d := Device([first, second], []);
            Outcome(d, [SEEKTO_COMMAND + ds, [COMMA] + os + [NEWLINE]], true) == (d, second[o..])
  {
    var d, a, b := Device([first, second], []), SEEKTO_COMMAND + ds, [COMMA] + os + [NEWLINE];
    FlattenTwo(a, b);
    LineOfTwo(SEEKTO_COMMAND, ds, os);
    CommandArrives(d, [a, b], ds, os, 1, o);
    assert d.log[2..] == [] && second[o..] + [] == second[o..];
  }

  lemma LineOfTwo(command: seq<byte>, ds: seq<byte>, os: seq<byte>)
    ensures command + ds + [COMMA] + os + [NEWLINE] == (command + ds) + ([COMMA] + os + [NEWLINE])
  {
  }

  lemma FlattenTwo(a: seq<byte>, b: seq<byte>)
    ensures Flatten([a, b]) == a + b
  {
    assert [a, b] == [a] + [b];
    FlattenConcat([a], [b]);
    FlattenSingle(a);
    FlattenSingle(b);
  }
}
