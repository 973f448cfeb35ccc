/**
 What one operation on the character device does, on values: the committed writes and the pending
 partial write on the one hand, and a position per open file on the other (main.c).
 */
module DeviceModel {
  import opened Bytes
  import opened BoundedLog

  const MAX_WRITE_OPERATIONS: nat := 10

  const EBADF: int := -9
  const EINVAL: int := -22
  const ENOTTY: int := -25

  const SEEK_SET: int := 0
  const SEEK_CUR: int := 1
  const SEEK_END: int := 2

  /** _IOWR(0x16, 1, struct aesd_seekto) */
  const IOCSEEKTO: nat := 0xC008_1601

  /** The committed writes, oldest first, and the bytes still waiting for a newline. */
  datatype Device = Device(log: seq<seq<byte>>, pending: seq<byte>)

  function Contents(d: Device): (c: seq<byte>)
    ensures |c| == Sum(Lengths(d.log))
  {
    FlattenLength(d.log);
    Flatten(d.log)
  }

  /** Only the part of the state that is still waiting lacks a newline. */
  ghost predicate Inv(d: Device) {
    && |d.log| <= MAX_WRITE_OPERATIONS
    && !HasNewline(d.pending)
    && forall i :: 0 <= i < |d.log| ==> HasNewline(d.log[i])
  }

  function WriteTo(d: Device, data: seq<byte>): Device {
    var whole := d.pending + data;
    if HasNewline(data) then Device(Push(MAX_WRITE_OPERATIONS, d.log, whole), [])
    else Device(d.log, whole)
  }

  /** A read gives out at most the rest of the entry that holds the position. */
  function ReadAt(d: Device, pos: nat, count: nat): seq<byte> {
    if pos >= Sum(Lengths(d.log)) then []
    else
      var (i, j) := Locate(Lengths(d.log), pos);
      d.log[i][j..j + Min(count, |d.log[i]| - j)]
  }

  /** The position a seek asks for, or the error it ends in; a position past the data is an error. */
  function LlseekFrom(d: Device, current: nat, offset: int, whence: int): int {
    var total := Sum(Lengths(d.log));
    if whence !in {SEEK_SET, SEEK_CUR, SEEK_END} then EINVAL
    else
      var pos := offset + if whence == SEEK_SET then 0 else if whence == SEEK_CUR then current else total;
      if pos < 0 || pos > total then EINVAL else pos
  }

  function SeektoIn(d: Device, c: nat, o: nat): int {
    SeekTo(MAX_WRITE_OPERATIONS, Lengths(d.log), c, o)
  }

  /** The device and the position of every file opened so far. */
  datatype Sys = Sys(dev: Device, cursors: seq<nat>)

  const INITIAL: Sys := Sys(Device([], []), [])

  datatype Op =
    | Open
    | Read(fd: nat, count: nat)
    | Write(fd: nat, data: seq<byte>)
    | Llseek(fd: nat, offset: int, whence: int)
    | Ioctl(fd: nat, cmd: nat, writeCmd: nat, writeCmdOffset: nat)

  datatype Out = Out(ret: int, data: seq<byte>)

  function Step(s: Sys, op: Op): (Sys, Out) {
    if op.Open? then
      (s.(cursors := s.cursors + [0]), Out(|s.cursors|, []))
    else if op.fd >= |s.cursors| then
      (s, Out(EBADF, []))
    else
      var pos := s.cursors[op.fd];
      match op
      case Read(fd, count) =>
        var data := ReadAt(s.dev, pos, count);
        (s.(cursors := s.cursors[fd := pos + |data|]), Out(|data|, data))
      case Write(fd, data) =>
        (s.(dev := WriteTo(s.dev, data)), Out(|data|, []))
      case Llseek(fd, offset, whence) =>
        var r := LlseekFrom(s.dev, pos, offset, whence);
        (if r < 0 then s else s.(cursors := s.cursors[fd := r]), Out(r, []))
      case Ioctl(fd, cmd, c, o) =>
        var r := SeektoIn(s.dev, c, o);
        if cmd != IOCSEEKTO then (s, Out(ENOTTY, []))
        else if r == -1 then (s, Out(EINVAL, []))
        else (s.(cursors := s.cursors[fd := r]), Out(0, []))
  }

  /** A read returns the contents from its position on, and returns nothing only when it has to. */
  lemma ReadIsSlice(d: Device, pos: nat, count: nat)
    ensures var data := ReadAt(d, pos, count);
            && |data| <= count
            && (data != [] || pos <= |Contents(d)| ==> IsSliceAt(data, Contents(d), pos))
            && (data == [] <==> pos >= |Contents(d)| || count == 0)
  {
    if pos < |Contents(d)| {
      var (i, j) := Locate(Lengths(d.log), pos);
      PositionIndexesFlatten(d.log, i, j, pos);
      var rest := d.log[i][j..];
      assert ReadAt(d, pos, count) == rest[..Min(count, |rest|)];
      assert Contents(d)[pos..pos + Min(count, |rest|)] == Contents(d)[pos..pos + |rest|][..Min(count, |rest|)];
    }
  }

  /** A read gives as many bytes as were asked for, or the rest of the entry its position is in when that is shorter. */
  lemma ReadGives(d: Device, i: nat, j: nat, pos: nat, count: nat)
    requires At(Lengths(d.log), i, j, pos)
    ensures var rest := d.log[i][j..];
            ReadAt(d, pos, count) == if count <= |rest| then rest[..count] else rest
  {
    FoundIsLocated(Lengths(d.log), i, j, pos);
    var entry, rest := d.log[i], d.log[i][j..];
    assert Lengths(d.log)[i] == |entry|;
    assert count <= |rest| ==> entry[j..j + count] == rest[..count];
    assert entry[j..j + |rest|] == rest;
  }

  /** Where the pending part has no newline, the new bytes decide alone as all of them together would. */
  lemma WriteKeepsInv(d: Device, data: seq<byte>)
    requires Inv(d)
    ensures Inv(WriteTo(d, data))
    ensures HasNewline(data) <==> HasNewline(d.pending + data)
  {
  }

  /** What a write does to the flat contents: nothing, or the packet comes at the end and the oldest entry goes. */
  lemma WriteShiftsContents(d: Device, data: seq<byte>)
    requires |d.log| <= MAX_WRITE_OPERATIONS
    ensures var d' := WriteTo(d, data);
            Contents(d') == (Contents(d) + if HasNewline(data) then d.pending + data else [])[EvictedBytes(d, data)..]
  {
    var whole := d.pending + data;
    if HasNewline(data) {
      FlattenSingle(whole);
      FlattenConcat(d.log, [whole]);
      if |d.log| == MAX_WRITE_OPERATIONS {
        FlattenConcat(d.log[1..], [whole]);
      }
    }
  }

  /** How many bytes leave the front of the contents when `data` is written. */
  function EvictedBytes(d: Device, data: seq<byte>): (n: nat)
    requires |d.log| <= MAX_WRITE_OPERATIONS
    ensures n <= |Contents(d)|
  {
    if HasNewline(data) && |d.log| == MAX_WRITE_OPERATIONS then |d.log[0]| else 0
  }

  /**
   A file whose reader has seen everything gets a new packet from its first byte iff the ring had
   room; otherwise as many bytes of the packet are passed over as the dropped entry was long.
   */
  lemma CaughtUpReader(d: Device, data: seq<byte>)
    requires Inv(d) && HasNewline(data)
    ensures var d' := WriteTo(d, data);
            var packet := d.pending + data;
            var rest := if |Contents(d)| <= |Contents(d')| then Contents(d')[|Contents(d)|..] else [];
            && (rest == packet <==> |d.log| < MAX_WRITE_OPERATIONS)
            && rest == packet[Min(|packet|, EvictedBytes(d, data))..]
  {
    WriteShiftsContents(d, data);
  }

  /**
   The three ways of naming a position agree: each reaches position `p` or is refused, with the same
   outcome, and it is refused exactly when `p` is not within the data.
   */
  lemma LlseekAgreement(s: Sys, fd: nat, p: int)
    requires fd < |s.cursors|
    ensures var total := |Contents(s.dev)|;
            var plain := Step(s, Llseek(fd, p, SEEK_SET));
            && Step(s, Llseek(fd, p - s.cursors[fd], SEEK_CUR)) == plain
            && Step(s, Llseek(fd, p - total, SEEK_END)) == plain
            && (if 0 <= p <= total then plain.1.ret == p == plain.0.cursors[fd]
                else plain.1.ret == EINVAL && plain.0 == s)
            && plain.0.dev == s.dev
            && forall other :: 0 <= other < |s.cursors| && other != fd ==> plain.0.cursors[other] == s.cursors[other]
  {
  }

  /** A seek is refused exactly for an unknown kind of seek or a position outside the data, and then changes nothing. */
  lemma LlseekRefused(s: Sys, fd: nat, offset: int, whence: int)
    requires fd < |s.cursors|
    ensures var (s', out) := Step(s, Llseek(fd, offset, whence));
            var total := |Contents(s.dev)|;
            && (out.ret == -22 <==> !(|| (whence == 0 && 0 <= offset <= total)
                                     || (whence == 1 && 0 <= s.cursors[fd] + offset <= total)
                                     || (whence == 2 && -total <= offset <= 0)))
            && (out.ret == -22 ==> s' == s)
            && (out.ret != -22 ==> 0 <= out.ret == s'.cursors[fd] <= total)
  {
  }

  /**
   What the ioctl call does for every command and pair: another command and a pair outside the ring's
   bounds are refused with different errors and change nothing; otherwise the position is that of the
   byte named, counted over all writes before it.
   */
  lemma IoctlExactly(s: Sys, fd: nat, cmd: nat, c: nat, o: nat)
    requires fd < |s.cursors| && |s.dev.log| <= 10
    ensures var (s', out), log := Step(s, Ioctl(fd, cmd, c, o)), s.dev.log;
            var within := c < |log| && o <= |log[c]|;
            var behind := 0 < |log| == c && o <= if c == 10 then |log[0]| else 0;
            && (out.ret == if cmd != 0xC008_1601 then -25 else if within || behind then 0 else -22)
            && (out.ret == 0 ==> s' == s.(cursors := s.cursors[fd := |Flatten(log[..c])| + o]))
            && (out.ret != 0 ==> s' == s)
  {
    var log := s.dev.log;
    if !(c < |log| && o < |log[c]|) {
      SeekBoundary(10, Lengths(log), c, o);
    }
    if c <= |log| {
      FlattenLength(log[..c]);
      assert Lengths(log[..c]) == Lengths(log)[..c];
    }
  }

  /**
   What a call may touch: only writes change the device, only the file's own position moves, and a call
   that fails changes nothing. A new file starts at 0, and reads and writes return how much they did.
   */
  lemma CallsTouch(s: Sys, op: Op)
    ensures var (s', out) := Step(s, op);
            && (!op.Write? ==> s'.dev == s.dev)
            && |s'.cursors| == |s.cursors| + (if op.Open? then 1 else 0)
            && (forall other :: 0 <= other < |s.cursors| && (op.Open? || op.Write? || other != op.fd) ==>
                  s'.cursors[other] == s.cursors[other])
            && (out.ret < 0 ==> s' == s && out.data == [])
            && (op.Open? ==> out.ret == |s.cursors| && s'.cursors[|s.cursors|] == 0)
            && (!op.Open? && op.fd >= |s.cursors| ==> out.ret == -9)
            && (!op.Open? && op.fd < |s.cursors| ==>
                  && (op.Write? ==> out.ret == |op.data|)
                  && (op.Read? ==> out.ret == |out.data| && s'.cursors[op.fd] == s.cursors[op.fd] + |out.data|))
  {
  }

  /** On the zero-referenced pairs, the seek command is a plain seek to the byte it names. */
  lemma SeektoIsLlseek(s: Sys, fd: nat, c: nat, o: nat)
    requires fd < |s.cursors| && c < |s.dev.log| && o < |s.dev.log[c]|
    ensures var pos := |Flatten(s.dev.log[..c])| + o;
            && Step(s, Ioctl(fd, IOCSEEKTO, c, o)).0 == Step(s, Llseek(fd, pos, SEEK_SET)).0
            && Step(s, Ioctl(fd, IOCSEEKTO, c, o)).1.ret == 0
            && Step(s, Llseek(fd, pos, SEEK_SET)).1.ret == pos
            && Step(s, Ioctl(fd, IOCSEEKTO, c, o)).0.cursors[fd] == pos < |Contents(s.dev)|
            && Contents(s.dev)[pos] == s.dev.log[c][o]
  {
    var pos := |Flatten(s.dev.log[..c])| + o;
    FlattenSplitAt(s.dev.log, c);
    assert At(Lengths(s.dev.log), c, o, pos);
    AtBounds(Lengths(s.dev.log), c, o, pos);
    PositionIndexesFlatten(s.dev.log, c, o, pos);
  }

  /**
   Whether a position that lies within the data still does after a step: it does except when an
   evicting write shrinks the data below it, or when the seek command names the write after a full
   ring and a byte other than 0.
   */
  lemma CursorStaysInRange(s: Sys, op: Op, fd: nat)
    requires Inv(s.dev) && fd < |s.cursors| && s.cursors[fd] <= |Contents(s.dev)|
    ensures Step(s, op).0.cursors[fd] > |Contents(Step(s, op).0.dev)| <==>
              CutOff(s, op, fd) || SeeksPastEnd(s, op, fd)
  {
    var total := Sum(Lengths(s.dev.log));
    match op
    case Open =>
    case Read(_, count) =>
      if op.fd < |s.cursors| {
        ReadIsSlice(s.dev, s.cursors[op.fd], count);
      }
    case Write(_, data) =>
      WriteShiftsContents(s.dev, data);
    case Llseek(_, _, _) =>
    case Ioctl(_, _, c, o) =>
      SeekPastEnd(MAX_WRITE_OPERATIONS, Lengths(s.dev.log), c, o);
  }

  predicate CutOff(s: Sys, op: Op, fd: nat)
    requires fd < |s.cursors|
  {
    && op.Write? && op.fd < |s.cursors| && HasNewline(op.data)
    && |s.dev.log| == MAX_WRITE_OPERATIONS
    && s.cursors[fd] + |s.dev.log[0]| > Sum(Lengths(s.dev.log)) + |s.dev.pending| + |op.data|
  }

  predicate SeeksPastEnd(s: Sys, op: Op, fd: nat) {
    && op.Ioctl? && op.fd == fd && op.cmd == IOCSEEKTO
    && op.writeCmd == |s.dev.log| == MAX_WRITE_OPERATIONS
    && 0 < op.writeCmdOffset <= |s.dev.log[0]|
  }
}
