/**
 One client connection of the socket server (processClientConnection in aesdsocket.c): receive a
 packet, carry out a seek command or write the packet to the device, send back what the device
 holds from the file's position on.
 */
module Server {
  import opened Bytes
  import opened BoundedLog
  import opened DeviceModel
  import opened AesdChar
  import opened SeekCommand

  const BUFFER_SIZE: nat := 1024

  // ---- What a connection does, on values

  /** The pieces that belong to one packet: up to the first with a newline, or to the end of the stream. */
  function Received(incoming: seq<seq<byte>>): (chunks: seq<seq<byte>>)
    ensures EndsAtNewline(chunks)
  {
    if incoming == [] || incoming[0] == [] then []
    else if HasNewline(incoming[0]) then [incoming[0]]
    else [incoming[0]] + Received(incoming[1..])
  }

  /** Writing the pieces one by one. */
  function WriteAll(d: Device, chunks: seq<seq<byte>>): Device
    decreases |chunks|
  {
    if chunks == [] then d else WriteAll(WriteTo(d, chunks[0]), chunks[1..])
  }

  /** What reading from `pos` until nothing comes gives. */
  function ContentsFrom(d: Device, pos: nat): seq<byte> {
    From(Contents(d), pos)
  }

  /** What a packet received in the given pieces asks for, if it is a command. */
  function Request(chunks: seq<seq<byte>>): Option<Seekto> {
    Parse(SEEKTO_COMMAND, Scanned(chunks))
  }

  /**
   The device and the file's position once a packet has been carried out. A seek that fails is only
   logged, so the position stays at the start.
   */
  function Effect(d: Device, request: Option<Seekto>, chunks: seq<seq<byte>>): (Device, nat) {
    match request
    case Some(Seekto(c, o)) =>
      var pos := SeektoIn(d, c, o);
      (d, if pos == -1 then 0 else pos)
    case None =>
      (WriteAll(d, chunks), 0)
  }

  /** The device and the reply after one connection. */
  function Session(d: Device, chunks: seq<seq<byte>>): (Device, seq<byte>) {
    if chunks == [] then (d, [])
    else
      var (d', pos) := Effect(d, Request(chunks), chunks);
      (d', ContentsFrom(d', pos))
  }

  /** However a packet was cut up, writing its pieces has the effect of one write of the whole. */
  lemma {:induction false} PacketCommit(d: Device, chunks: seq<seq<byte>>)
    requires EndsAtNewline(chunks)
    ensures WriteAll(d, chunks) == WriteTo(d, Flatten(chunks))
    decreases |chunks|
  {
    if chunks == [] {
      assert d.pending + [] == d.pending;
    } else if |chunks| == 1 {
      FlattenSingle(chunks[0]);
      assert chunks == [chunks[0]];
      assert WriteAll(WriteTo(d, chunks[0]), chunks[1..]) == WriteTo(d, chunks[0]);
    } else {
      var rest := chunks[1..];
      assert !HasNewline(chunks[0]);
      assert forall k :: 0 <= k < |rest| - 1 ==> rest[k] == chunks[k + 1];
      PacketCommit(WriteTo(d, chunks[0]), rest);
      Assoc(d.pending, chunks[0], Flatten(rest));
    }
  }

  /** The effect and the reply depend on the packet's bytes alone, not on the pieces they came in. */
  lemma SessionOfPacket(d: Device, chunks: seq<seq<byte>>)
    requires EndsAtNewline(chunks) && Flatten(chunks) != []
    ensures Session(d, chunks) == Session(d, [Flatten(chunks)])
  {
    var packet := Flatten(chunks);
    ScanSeesFirstLine(chunks);
    ScannedSingle(packet);
    PacketCommit(d, chunks);
    FlattenSingle(packet);
    PacketCommit(d, [packet]);
  }

  /** The scan of what is received sees the first line of what arrives, in whatever non-empty pieces that is. */
  lemma {:induction false} LineReceived(incoming: seq<seq<byte>>)
    requires forall k :: 0 <= k < |incoming| ==> incoming[k] != []
    ensures Scanned(Received(incoming)) == Before(Flatten(incoming), NEWLINE)
  {
    if incoming == [] {
    } else {
      var first, rest := incoming[0], incoming[1..];
      if HasNewline(first) {
        ScannedSingle(first);
        BeforeUnique(first + Flatten(rest), NEWLINE, Before(first, NEWLINE));
      } else {
        LineReceived(rest);
        BeforeConcat(first, Flatten(rest));
        assert ([first] + Received(rest))[1..] == Received(rest);
      }
    }
  }

  /**
   End to end: a client that sends the seek command for byte `o` of write `c`, in whatever pieces it
   arrives and whatever comes behind its newline, gets back exactly the contents of the device from
   that byte on, and the device stays as it was.
   */
  lemma SeekReply(d: Device, incoming: seq<seq<byte>>, c: nat, o: nat)
    requires |d.log| <= MAX_WRITE_OPERATIONS
    requires c < |d.log| && o < |d.log[c]| && o < 0x1_0000_0000
    requires forall k :: 0 <= k < |incoming| ==> incoming[k] != []
    requires CommandLine(SEEKTO_COMMAND, c, o) + [NEWLINE] <= Flatten(incoming)
    ensures Session(d, Received(incoming)) == (d, d.log[c][o..] + Flatten(d.log[c + 1..]))
  {
    CommandHasNoNewline(c, o);
    CommandReceived(SEEKTO_COMMAND, incoming, c, o);
    SessionSeeks(d, Received(incoming), c, o);
  }

  lemma CommandReceived(command: seq<byte>, incoming: seq<seq<byte>>, c: nat, o: nat)
    requires c < 0x1_0000_0000 && o < 0x1_0000_0000 && !HasNewline(CommandLine(command, c, o))
    requires forall k :: 0 <= k < |incoming| ==> incoming[k] != []
    requires CommandLine(command, c, o) + [NEWLINE] <= Flatten(incoming)
    ensures Received(incoming) != [] && Parse(command, Scanned(Received(incoming))) == Some(Seekto(c, o))
  {
    var line := CommandLine(command, c, o);
    RoundTrip(command, c, o);
    LineReceived(incoming);
    FirstLine(Flatten(incoming), line);
  }

  lemma FirstLine(s: seq<byte>, line: seq<byte>)
    requires !HasNewline(line) && line + [NEWLINE] <= s
    ensures Before(s, NEWLINE) == line
  {
    assert s[..|line| + 1] == line + [NEWLINE];
    assert line == (line + [NEWLINE])[..|line|] == s[..|line|];
    BeforeUnique(s, NEWLINE, line);
  }

  lemma SessionSeeks(d: Device, chunks: seq<seq<byte>>, c: nat, o: nat)
    requires chunks != [] && Request(chunks) == Some(Seekto(c, o))
    requires c < |d.log| && o < |d.log[c]|
    ensures Session(d, chunks) == (d, d.log[c][o..] + Flatten(d.log[c + 1..]))
  {
    SeekContents(d, c, o);
    assert Effect(d, Some(Seekto(c, o)), chunks) == (d, SeektoIn(d, c, o));
  }

  lemma SeekContents(d: Device, c: nat, o: nat)
    requires c < |d.log| && o < |d.log[c]|
    ensures 0 <= SeektoIn(d, c, o)
    ensures ContentsFrom(d, SeektoIn(d, c, o)) == d.log[c][o..] + Flatten(d.log[c + 1..])
  {
    FlattenSplitAt(d.log, c);
  }

  /**
   The reply to a seek outside the zero-referenced range: one past a write starts with the next one,
   one past the last write gives nothing as long as the ring accepts it, and every other seek is
   refused, which the client sees as the whole contents.
   */
  lemma OutOfRangeSeekReply(d: Device, chunks: seq<seq<byte>>, c: nat, o: nat)
    requires |d.log| <= MAX_WRITE_OPERATIONS && chunks != [] && Request(chunks) == Some(Seekto(c, o))
    requires !(c < |d.log| && o < |d.log[c]|)
    ensures Session(d, chunks) ==
            (d, if c < |d.log| && o == |d.log[c]| then Flatten(d.log[c + 1..])
                else if c == |d.log| > 0 && o <= (if c == MAX_WRITE_OPERATIONS then |d.log[0]| else 0) then []
                else Contents(d))
  {
    OutOfRangeContents(d, c, o);
    var pos := SeektoIn(d, c, o);
    assert Effect(d, Some(Seekto(c, o)), chunks) == (d, if pos == -1 then 0 else pos);
  }

  lemma OutOfRangeContents(d: Device, c: nat, o: nat)
    requires |d.log| <= MAX_WRITE_OPERATIONS && !(c < |d.log| && o < |d.log[c]|)
    ensures var pos := SeektoIn(d, c, o);
            ContentsFrom(d, if pos == -1 then 0 else pos) ==
            if c < |d.log| && o == |d.log[c]| then Flatten(d.log[c + 1..])
            else if c == |d.log| > 0 && o <= (if c == MAX_WRITE_OPERATIONS then |d.log[0]| else 0) then []
            else Contents(d)
  {
    SeekBoundary(MAX_WRITE_OPERATIONS, Lengths(d.log), c, o);
    if c < |d.log| && o == |d.log[c]| {
      FlattenSplitAt(d.log, c);
    }
    assert Contents(d)[0..] == Contents(d);
  }

  lemma CommandHasNoNewline(c: nat, o: nat)
    ensures !HasNewline(CommandLine(SEEKTO_COMMAND, c, o))
  {
    assert forall b :: b in Decimal(c) || b in Decimal(o) ==> IsDigit(b);
    assert forall b :: b in SEEKTO_COMMAND ==> b != NEWLINE;
  }

  /**
   A packet that is no command goes behind what was pending: with a newline, all of that becomes one
   entry; when the stream ended before a newline, it stays pending, for the next client's packet to
   continue. The reply is all the device then holds.
   */
  lemma DataReply(d: Device, chunks: seq<seq<byte>>)
    requires Inv(d) && EndsAtNewline(chunks) && chunks != []
    requires Parse(SEEKTO_COMMAND, Before(Flatten(chunks), NEWLINE)) == None
    ensures var whole, (d', reply) := d.pending + Flatten(chunks), Session(d, chunks);
            && reply == Contents(d') && Inv(d')
            && (if HasNewline(Flatten(chunks))
                then d'.log == Push(MAX_WRITE_OPERATIONS, d.log, whole) && d'.pending == []
                else d'.log == d.log && d'.pending == whole && reply == Contents(d))
  {
    ScanSeesFirstLine(chunks);
    PacketCommit(d, chunks);
    WriteKeepsInv(d, Flatten(chunks));
  }

  // ---- What a connection does, from what arrives

  /**
   The first `n` pieces that arrive are those of one packet: whole pieces, up to and with the first that
   has a newline, or else up to an empty one, where the client has closed, or to the last.
   */
  predicate PacketEnds(incoming: seq<seq<byte>>, n: nat) {
    && n <= |incoming|
    && (forall k :: 0 <= k < n ==> incoming[k] != [])
    && (forall k :: 0 <= k < n - 1 ==> !HasNewline(incoming[k]))
    && ((0 < n && HasNewline(incoming[n - 1])) || n == |incoming| || incoming[n] == [])
  }

  /** What is received is exactly that. */
  lemma {:induction false} ReceivedExactly(incoming: seq<seq<byte>>, n: nat)
    ensures PacketEnds(incoming, n) ==> Received(incoming) == incoming[..n]
    ensures Received(incoming) <= incoming && PacketEnds(incoming, |Received(incoming)|)
  {
    if incoming == [] || incoming[0] == [] || HasNewline(incoming[0]) {
    } else {
      var rest := incoming[1..];
      ReceivedExactly(rest, if n == 0 then 0 else n - 1);
      if PacketEnds(incoming, n) {
        assert forall k :: 0 <= k < n - 1 ==> rest[k] == incoming[k + 1];
        assert PacketEnds(rest, n - 1);
        assert incoming[..n] == [incoming[0]] + rest[..n - 1];
      }
      assert Received(incoming) == [incoming[0]] + Received(rest);
      assert forall k :: 0 < k < |incoming| ==> incoming[k] == rest[k - 1];
    }
  }

  /** When nothing arrives, or the device cannot be opened, nothing is sent and the device stays as it is. */
  lemma NothingDone(d: Device, incoming: seq<seq<byte>>, openOk: bool)
    requires incoming == [] || incoming[0] == [] || !openOk
    ensures Outcome(d, incoming, openOk) == (d, [])
  {
  }

  /**
   A packet that is no command: all bytes that arrived in its pieces, those behind a newline in the last
   one included, go behind what was pending and become one entry with it, or stay pending when none of
   them is a newline; the reply is all that the device then holds.
   */
  lemma DataArrives(d: Device, incoming: seq<seq<byte>>, n: nat)
    requires Inv(d) && PacketEnds(incoming, n) && 0 < n
    requires Parse(SEEKTO_COMMAND, Before(Flatten(incoming[..n]), NEWLINE)) == None
    ensures var packet, (d', reply) := Flatten(incoming[..n]), Outcome(d, incoming, true);
            && reply == Flatten(d'.log)
            && d' == if HasNewline(packet) then Device(Push(MAX_WRITE_OPERATIONS, d.log, d.pending + packet), [])
                     else Device(d.log, d.pending + packet)
  {
    ReceivedExactly(incoming, n);
    DataReply(d, incoming[..n]);
  }

  /**
   A command, with digits of any length, in whatever non-empty pieces and whatever comes behind its
   newline: with `c` and `o` what is kept of the two numbers, the reply is the contents from the byte named on, where
   one past a write is the next one's first byte; nothing for a place past the last write that the ring
   accepts; and the whole contents for any other. The device stays as it is.
   */
  lemma CommandArrives(d: Device, incoming: seq<seq<byte>>, ds: seq<byte>, os: seq<byte>, c: nat, o: nat)
    requires |d.log| <= MAX_WRITE_OPERATIONS && AllDigits(ds) && DigitsOrCommas(os)
    requires Wraps(c, Value(ds)) && Wraps(o, Value(DropCommas(os)))
    requires forall k :: 0 <= k < |incoming| ==> incoming[k] != []
    requires SEEKTO_COMMAND + ds + [COMMA] + os + [NEWLINE] <= Flatten(incoming)
    ensures Outcome(d, incoming, true) ==
            (d, if c < |d.log| && o <= |d.log[c]| then d.log[c][o..] + Flatten(d.log[c + 1..])
                else if c == |d.log| > 0 && o <= (if c == MAX_WRITE_OPERATIONS then |d.log[0]| else 0) then []
                else Flatten(d.log))
  {
    DigitsReceived(incoming, ds, os, c, o);
    SeekAnswered(d, Received(incoming), c, o);
  }

  lemma SeekAnswered(d: Device, chunks: seq<seq<byte>>, c: nat, o: nat)
    requires |d.log| <= MAX_WRITE_OPERATIONS && chunks != [] && Request(chunks) == Some(Seekto(c, o))
    ensures Session(d, chunks) ==
            (d, if c < |d.log| && o <= |d.log[c]| then d.log[c][o..] + Flatten(d.log[c + 1..])
                else if c == |d.log| > 0 && o <= (if c == MAX_WRITE_OPERATIONS then |d.log[0]| else 0) then []
                else Flatten(d.log))
  {
    if c < |d.log| && o < |d.log[c]| {
      SessionSeeks(d, chunks, c, o);
    } else {
      OutOfRangeSeekReply(d, chunks, c, o);
      if c < |d.log| && o == |d.log[c]| {
        assert d.log[c][o..] + Flatten(d.log[c + 1..]) == Flatten(d.log[c + 1..]);
      }
    }
  }

  lemma DigitsReceived(incoming: seq<seq<byte>>, ds: seq<byte>, os: seq<byte>, c: nat, o: nat)
    requires AllDigits(ds) && DigitsOrCommas(os)
    requires Wraps(c, Value(ds)) && Wraps(o, Value(DropCommas(os)))
    requires forall k :: 0 <= k < |incoming| ==> incoming[k] != []
    requires SEEKTO_COMMAND + ds + [COMMA] + os + [NEWLINE] <= Flatten(incoming)
    ensures Received(incoming) != [] && Request(Received(incoming)) == Some(Seekto(c, o))
  {
    var line := SEEKTO_COMMAND + ds + [COMMA] + os;
    assert NEWLINE !in ds && NEWLINE !in os && NEWLINE !in SEEKTO_COMMAND;
    WrapsUniquely(c, Value(ds));
    WrapsUniquely(o, Value(DropCommas(os)));
    CommandParses(SEEKTO_COMMAND, ds, os);
    LineReceived(incoming);
    FirstLine(Flatten(incoming), line);
  }

  // ---- The program

  /** The client's end of the connection: what is still to arrive, and what was sent back. */
  class Socket {
    var incoming: seq<seq<byte>>
    var sent: seq<byte>

    constructor (incoming: seq<seq<byte>>)
      ensures this.incoming == incoming && sent == []
    {
      this.incoming, sent := incoming, [];
    }

    /** The next piece, or nothing at the end of the stream. */
    method Recv() returns (bytes: seq<byte>)
      modifies this
      ensures sent == old(sent)
      ensures if old(incoming) == [] then bytes == [] && incoming == []
              else bytes == old(incoming)[0] && incoming == old(incoming)[1..]
    {
      if incoming == [] {
        return [];
      }
      bytes, incoming := incoming[0], incoming[1..];
    }

    method Send(bytes: seq<byte>)
      modifies this
      ensures sent == old(sent) + bytes && incoming == old(incoming)
    {
      sent := sent + bytes;
    }
  }

  method FindNewline(bytes: seq<byte>) returns (found: bool)
    ensures found == HasNewline(bytes)
  {
    found := false;
    var i := 0;
    while i < |bytes|
      invariant 0 <= i <= |bytes| && !HasNewline(bytes[..i])
    {
      if bytes[i] == NEWLINE {
        return true;
      }
      i := i + 1;
    }
  }

  /** The list built behind `head`, whose last node is `last`. */
  ghost predicate Building(head: RecvNode, last: RecvNode, nodes: seq<RecvNode>, chunks: seq<seq<byte>>)
    reads head`next, nodes`next
  {
    && IsPacket(head.next, nodes, chunks)
    && last == (if nodes == [] then head else nodes[|nodes| - 1])
    && (forall k {:trigger nodes[k]} :: 0 <= k < |nodes| ==> nodes[k] != head)
    && (forall k {:trigger nodes[k]} :: 0 <= k < |nodes| - 1 ==> nodes[k] != last)
  }

  /** Links a new node behind the last one. */
  method AppendNode(head: RecvNode, last: RecvNode, newnode: RecvNode,
                    ghost nodes: seq<RecvNode>, ghost chunks: seq<seq<byte>>)
    requires Building(head, last, nodes, chunks) && newnode.next == null
    requires newnode != head && newnode !in nodes
    modifies last`next
    ensures Building(head, newnode, nodes + [newnode], chunks + [newnode.buffer])
  {
    last.next := newnode;
  }

  /** Receives one packet into a list of nodes, built behind a dummy head. */
  method ReceivePacket(socket: Socket)
    returns (head: RecvNode?, ghost nodes: seq<RecvNode>, ghost chunks: seq<seq<byte>>)
    modifies socket
    ensures IsPacket(head, nodes, chunks) && chunks == Received(old(socket.incoming))
    ensures socket.sent == old(socket.sent)
  {
    var dummyhead := new RecvNode([]);
    var node := dummyhead;
    nodes, chunks := [], [];
    ghost var packet := Received(socket.incoming);
    while true
      invariant Building(dummyhead, node, nodes, chunks) && fresh(node)
      invariant socket.sent == old(socket.sent)
      invariant chunks + Received(socket.incoming) == packet
      decreases |socket.incoming|
    {
      ghost var rest := Received(socket.incoming);
      var bytes := socket.Recv();
      if |bytes| == 0 {
        break;
      }
      var newnode := new RecvNode(bytes);
      AppendNode(dummyhead, node, newnode, nodes, chunks);
      node := newnode;
      Assoc(chunks, [bytes], rest[1..]);
      nodes, chunks := nodes + [newnode], chunks + [bytes];
      var newLineFound := FindNewline(bytes);
      if newLineFound {
        break;
      }
    }
    head := dummyhead.next;
  }

  /** Where a walk along the nodes of a packet stands. */
  ghost predicate IsNode(node: RecvNode?, nodes: seq<RecvNode>, k: nat) {
    k <= |nodes| && if k < |nodes| then node == nodes[k] else node == null
  }

  /** Writes the piece of one node to the device. */
  method WriteNode(dev: AesdDev, head: RecvNode?, node: RecvNode, ghost nodes: seq<RecvNode>,
                   ghost chunks: seq<seq<byte>>, ghost k: nat)
    returns (next: RecvNode?)
    requires dev.Valid() && IsPacket(head, nodes, chunks) && IsNode(node, nodes, k)
    modifies dev`newEntry, dev.buffer, dev.buffer.entry, dev.heap, dev.heap.live
    ensures dev.Valid() && fresh(dev.heap.live - old(dev.heap.live))
    ensures k < |nodes| && IsPacket(head, nodes, chunks) && IsNode(next, nodes, k + 1)
    ensures WriteAll(dev.View(), chunks[k + 1..]) == WriteAll(old(dev.View()), chunks[k..])
  {
    assert k + 1 < |nodes| ==> nodes[k].next == nodes[k + 1];
    assert chunks[k..][0] == node.buffer && chunks[k..][1..] == chunks[k + 1..];
    var ret := dev.Write(node.buffer);
    next := node.next;
  }

  /** Writes the nodes of a packet to the device, one after the other. */
  method WritePacket(dev: AesdDev, head: RecvNode?, ghost nodes: seq<RecvNode>, ghost chunks: seq<seq<byte>>)
    requires dev.Valid() && IsPacket(head, nodes, chunks)
    modifies dev`newEntry, dev.buffer, dev.buffer.entry, dev.heap, dev.heap.live
    ensures dev.Valid() && dev.View() == WriteAll(old(dev.View()), chunks)
    ensures fresh(dev.heap.live - old(dev.heap.live))
  {
    var node := head;
    ghost var k: nat, done := 0, WriteAll(dev.View(), chunks);
    while node != null
      invariant IsPacket(head, nodes, chunks) && IsNode(node, nodes, k)
      invariant dev.Valid() && fresh(dev.heap.live - old(dev.heap.live))
      invariant WriteAll(dev.View(), chunks[k..]) == done
      decreases |nodes| - k
    {
      node := WriteNode(dev, head, node, nodes, chunks, k);
      k := k + 1;
    }
  }

  /** A read takes its bytes off the front of what is still to be read. */
  lemma ReadTakes(d: Device, pos: nat, count: nat)
    requires 0 < count
    ensures var data := ReadAt(d, pos, count);
            && ContentsFrom(d, pos) == data + ContentsFrom(d, pos + |data|)
            && (data == [] ==> ContentsFrom(d, pos) == [])
  {
    ReadIsSlice(d, pos, count);
  }

  /** One read from the file's position, sent on unless it gave nothing. */
  method SendNext(dev: AesdDev, file: File, socket: Socket) returns (num: nat)
    requires dev.Valid()
    modifies file, socket
    ensures dev.Valid() && dev.View() == old(dev.View()) && socket.incoming == old(socket.incoming)
    ensures var d := old(dev.View());
            && socket.sent + ContentsFrom(d, file.fPos) == old(socket.sent) + ContentsFrom(d, old(file.fPos))
            && |ContentsFrom(d, old(file.fPos))| == num + |ContentsFrom(d, file.fPos)|
            && (num == 0 ==> ContentsFrom(d, file.fPos) == [])
            && num == |ReadAt(d, old(file.fPos), 1024)|
  {
    ghost var d, pos, sent := dev.View(), file.fPos, socket.sent;
    ReadTakes(d, pos, BUFFER_SIZE);
    var ret, data := dev.Read(file, BUFFER_SIZE);
    num := |data|;
    if num != 0 {
      socket.Send(data);
      Assoc(sent, data, ContentsFrom(d, pos + num));
    }
  }

  /** Reads from the file's position until nothing comes, sending everything on. */
  method ReadBack(dev: AesdDev, file: File, socket: Socket)
    requires dev.Valid()
    modifies file, socket
    ensures socket.sent == old(socket.sent) + ContentsFrom(old(dev.View()), old(file.fPos))
    ensures socket.incoming == old(socket.incoming) && dev.Valid() && dev.View() == old(dev.View())
  {
    ghost var d, all := dev.View(), socket.sent + ContentsFrom(dev.View(), file.fPos);
    while true
      invariant dev.Valid() && dev.View() == d && socket.incoming == old(socket.incoming)
      invariant socket.sent + ContentsFrom(d, file.fPos) == all
      decreases |ContentsFrom(d, file.fPos)|
    {
      var num := SendNext(dev, file, socket);
      if num == 0 {
        break;
      }
    }
  }

  /** Carries out what was asked for: a seek, or else writing the packet. */
  method CarryOut(dev: AesdDev, file: File, request: Option<Seekto>, head: RecvNode?,
                  ghost nodes: seq<RecvNode>, ghost chunks: seq<seq<byte>>)
    requires dev.Valid() && IsPacket(head, nodes, chunks) && file.fPos == 0
    modifies file, dev`newEntry, dev.buffer, dev.buffer.entry, dev.heap, dev.heap.live
    ensures dev.Valid() && (dev.View(), file.fPos) == Effect(old(dev.View()), request, chunks)
    ensures fresh(dev.heap.live - old(dev.heap.live))
  {
    ghost var d := dev.View();
    if request.Some? {
      var ret := dev.Ioctl(file, IOCSEEKTO, request.value.writeCmd, request.value.writeCmdOffset);
      assert dev.View() == d;
    } else {
      WritePacket(dev, head, nodes, chunks);
    }
  }

  /** Opens the device, carries out the packet and sends back what can then be read. */
  method Serve(dev: AesdDev, socket: Socket, request: Option<Seekto>, head: RecvNode?,
               ghost nodes: seq<RecvNode>, ghost chunks: seq<seq<byte>>)
    requires dev.Valid() && IsPacket(head, nodes, chunks)
    modifies socket, dev`newEntry, dev.buffer, dev.buffer.entry, dev.heap, dev.heap.live
    ensures dev.Valid() && fresh(dev.heap.live - old(dev.heap.live))
    ensures var (d, pos) := Effect(old(dev.View()), request, chunks);
            dev.View() == d && socket.sent == old(socket.sent) + ContentsFrom(d, pos)
  {
    ghost var d, live := dev.View(), dev.heap.live;
    var file := new File();
    assert dev.View() == d && dev.heap.live == live;
    CarryOut(dev, file, request, head, nodes, chunks);
    assert fresh(dev.heap.live - live);
    ReadBack(dev, file, socket);
  }

  /**
   What one connection does to the device, and its reply; `openOk` says whether the device could be
   opened. Without an open file the packet is dropped and nothing is sent.
   */
  function Outcome(d: Device, incoming: seq<seq<byte>>, openOk: bool): (Device, seq<byte>) {
    if openOk then Session(d, Received(incoming)) else (d, [])
  }

  /** Receives a packet and looks for a command in it. */
  method ReceiveRequest(socket: Socket)
    returns (head: RecvNode?, request: Option<Seekto>, ghost nodes: seq<RecvNode>, ghost chunks: seq<seq<byte>>)
    modifies socket
    ensures IsPacket(head, nodes, chunks) && chunks == Received(old(socket.incoming)) && request == Request(chunks)
    ensures socket.sent == old(socket.sent)
  {
    head, nodes, chunks := ReceivePacket(socket);
    request := FindCommand(head, SEEKTO_COMMAND, nodes, chunks);
  }

  /** One connection. */
  method ProcessClientConnection(dev: AesdDev, socket: Socket, openOk: bool)
    requires dev.Valid()
    modifies socket, dev`newEntry, dev.buffer, dev.buffer.entry, dev.heap, dev.heap.live
    ensures dev.Valid() && fresh(dev.heap.live - old(dev.heap.live))
    ensures var (d, reply) := Outcome(old(dev.View()), old(socket.incoming), openOk);
            dev.View() == d && socket.sent == old(socket.sent) + reply
    ensures old(socket.incoming) == [] || old(socket.incoming)[0] == [] || !openOk ==>
              dev.View() == old(dev.View()) && socket.sent == old(socket.sent)
  {
    ghost var d, sent, live := dev.View(), socket.sent, dev.heap.live;
    var head, request, nodes, chunks := ReceiveRequest(socket);
    assert dev.Valid() && dev.View() == d && dev.heap.live == live && sent + [] == sent;
    if head != null && openOk {
      Serve(dev, socket, request, head, nodes, chunks);
      assert fresh(dev.heap.live - live);
    }
  }

  // ---- Connections one after the other

  /** A client: what it sends, and whether the device can be opened for it. */
  datatype Client = Client(incoming: seq<seq<byte>>, openOk: bool)

  /** The device and all replies after the clients were served in turn. */
  function Sessions(d: Device, clients: seq<Client>): (r: (Device, seq<seq<byte>>))
    ensures |r.1| == |clients|
    decreases |clients|
  {
    if clients == [] then (d, [])
    else
      var n := |clients| - 1;
      var (d', replies) := Sessions(d, clients[..n]);
      var (d'', reply) := Outcome(d', clients[n].incoming, clients[n].openOk);
      (d'', replies + [reply])
  }

  lemma SessionsNext(d: Device, clients: seq<Client>, k: nat)
    requires k < |clients|
    ensures var (d', replies) := Sessions(d, clients[..k]);
            var (d'', reply) := Outcome(d', clients[k].incoming, clients[k].openOk);
            Sessions(d, clients[..k + 1]) == (d'', replies + [reply])
  {
    assert clients[..k + 1][..k] == clients[..k];
  }

  /** Each client's reply is that of its own connection, on the device as the clients before it left it. */
  lemma {:induction false} SessionsReply(d: Device, clients: seq<Client>, k: nat)
    requires k < |clients|
    ensures Sessions(d, clients).1[k]
         == Outcome(Sessions(d, clients[..k]).0, clients[k].incoming, clients[k].openOk).1
    decreases |clients|
  {
    var n := |clients| - 1;
    if k == n {
    } else {
      SessionsReply(d, clients[..n], k);
      assert clients[..n][..k] == clients[..k];
    }
  }

  /**
   The first clients have got their replies, behind what they were sent before; the others have still
   to be served.
   */
  ghost predicate Served(sockets: seq<Socket>, clients: seq<Client>, before: seq<seq<byte>>, replies: seq<seq<byte>>)
    reads sockets
  {
    && |replies| <= |sockets| == |clients| == |before|
    && (forall i {:trigger sockets[i]} :: 0 <= i < |replies| ==> sockets[i].sent == before[i] + replies[i])
    && forall i {:trigger sockets[i]} :: |replies| <= i < |sockets| ==>
         sockets[i].sent == before[i] && sockets[i].incoming == clients[i].incoming
  }

  /** Serves the next client; the other sockets stay as they are. */
  method ServeNext(dev: AesdDev, sockets: seq<Socket>, k: nat, openOk: bool, ghost clients: seq<Client>,
                   ghost before: seq<seq<byte>>, ghost replies: seq<seq<byte>>)
    requires dev.Valid() && Served(sockets, clients, before, replies) && k == |replies| < |sockets|
    requires forall i {:trigger sockets[i]} :: 0 <= i < |sockets| && i != k ==> sockets[i] != sockets[k]
    modifies sockets[k], dev`newEntry, dev.buffer, dev.buffer.entry, dev.heap, dev.heap.live
    ensures dev.Valid() && fresh(dev.heap.live - old(dev.heap.live))
    ensures var (d, reply) := Outcome(old(dev.View()), clients[k].incoming, openOk);
            dev.View() == d && Served(sockets, clients, before, replies + [reply])
  {
    ghost var reply := Outcome(dev.View(), clients[k].incoming, openOk).1;
    ProcessClientConnection(dev, sockets[k], openOk);
    assert forall i :: 0 <= i < k ==> (replies + [reply])[i] == replies[i];
    assert (replies + [reply])[k] == reply;
  }

  /** Serves any clients in turn: the device and all replies are those of their sessions, one after the other. */
  method ServeAll(dev: AesdDev, sockets: seq<Socket>, opens: seq<bool>, ghost clients: seq<Client>,
                  ghost before: seq<seq<byte>>)
    requires dev.Valid() && Served(sockets, clients, before, []) && |opens| == |clients|
    requires forall i :: 0 <= i < |opens| ==> clients[i].openOk == opens[i]
    requires forall i, j {:trigger sockets[i], sockets[j]} :: 0 <= i < j < |sockets| ==> sockets[i] != sockets[j]
    modifies sockets, dev`newEntry, dev.buffer, dev.buffer.entry, dev.heap, dev.heap.live
    ensures dev.Valid() && fresh(dev.heap.live - old(dev.heap.live))
    ensures var (d, replies) := Sessions(old(dev.View()), clients);
            dev.View() == d && Served(sockets, clients, before, replies)
  {
    ghost var d := dev.View();
    for k := 0 to |sockets|
      invariant dev.Valid() && fresh(dev.heap.live - old(dev.heap.live))
      invariant dev.View() == Sessions(d, clients[..k]).0
      invariant Served(sockets, clients, before, Sessions(d, clients[..k]).1)
    {
      SessionsNext(d, clients, k);
      ServeNext(dev, sockets, k, opens[k], clients, before, Sessions(d, clients[..k]).1);
    }
    assert clients[..|sockets|] == clients;
  }
}
