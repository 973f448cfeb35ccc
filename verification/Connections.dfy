/**
 Connections as parts of a run of the device, with other clients' operations in between: the server
 holds its lock while it seeks or writes, but not while it reads the reply back.
 */
module Connections {
  import opened Bytes
  import opened BoundedLog
  import opened DeviceModel
  import opened Runs
  import opened Streams
  import opened SeekCommand
  import opened Server

  /** The calls on the device that a connection makes under the server's lock, on the file it opens as `fd`. */
  function LockedCalls(fd: nat, chunks: seq<seq<byte>>): seq<Op> {
    [Open] + match Request(chunks)
             case Some(Seekto(c, o)) => [Ioctl(fd, IOCSEEKTO, c, o)]
             case None => WriteCalls(fd, chunks)
  }

  function WriteCalls(fd: nat, chunks: seq<seq<byte>>): (ops: seq<Op>)
    ensures |ops| == |chunks|
  {
    seq(|chunks|, k requires 0 <= k < |chunks| => Write(fd, chunks[k]))
  }

  lemma {:induction false} WriteCallsWrite(s: Sys, fd: nat, chunks: seq<seq<byte>>)
    requires fd < |s.cursors|
    ensures Exec(s, WriteCalls(fd, chunks)) == Sys(WriteAll(s.dev, chunks), s.cursors)
    decreases |chunks|
  {
    if chunks == [] {
    } else {
      WriteCallsWrite(Step(s, Write(fd, chunks[0])).0, fd, chunks[1..]);
      assert WriteCalls(fd, chunks)[1..] == WriteCalls(fd, chunks[1..]);
    }
  }

  /** A new file is at the start; the seek command moves it, or leaves it there when refused. */
  lemma SeekTakesEffect(s: Sys, c: nat, o: nat)
    ensures var pos := SeektoIn(s.dev, c, o);
            Step(Sys(s.dev, s.cursors + [0]), Ioctl(|s.cursors|, IOCSEEKTO, c, o)).0
            == Sys(s.dev, s.cursors + [if pos == -1 then 0 else pos])
  {
    assert forall r: nat :: (s.cursors + [0])[|s.cursors| := r] == s.cursors + [r];
  }

  /** As a run of the device, these calls have the effect of the connection. */
  lemma LockedCallsTakeEffect(s: Sys, chunks: seq<seq<byte>>)
    ensures var (d, pos) := Effect(s.dev, Request(chunks), chunks);
            Exec(s, LockedCalls(|s.cursors|, chunks)) == Sys(d, s.cursors + [pos])
  {
    var fd := |s.cursors|;
    var atOpen := Sys(s.dev, s.cursors + [0]);
    var calls := LockedCalls(fd, chunks);
    assert Step(s, Open).0 == atOpen && calls[0] == Open;
    assert Exec(s, calls) == Exec(atOpen, calls[1..]);
    match Request(chunks)
    case Some(Seekto(c, o)) =>
      var seek := Ioctl(fd, IOCSEEKTO, c, o);
      assert calls[1..] == [seek] == [] + [seek];
      RunSnoc(atOpen, [], seek);
      SeekTakesEffect(s, c, o);
    case None =>
      assert calls[1..] == WriteCalls(fd, chunks);
      WriteCallsWrite(atOpen, fd, chunks);
  }

  /** Where a connection's own calls leave the system: the device, and the new file's position. */
  function AfterLock(s: Sys, chunks: seq<seq<byte>>): Sys {
    Exec(s, LockedCalls(|s.cursors|, chunks))
  }

  /** A connection starts reading within the data unless its command is the one seek that the ring lets past the end. */
  lemma StartsWithinData(d: Device, chunks: seq<seq<byte>>)
    requires Inv(d)
    ensures var (d', pos) := Effect(d, Request(chunks), chunks);
            pos > |Contents(d')| <==>
              && Request(chunks).Some?
              && var Seekto(c, o) := Request(chunks).value;
              c == MAX_WRITE_OPERATIONS == |d.log| && 0 < o <= |d.log[0]|
  {
    match Request(chunks)
    case Some(Seekto(c, o)) =>
      SeekPastEnd(MAX_WRITE_OPERATIONS, Lengths(d.log), c, o);
    case None =>
  }

  /**
   The reply read back outside the lock, whatever other clients do meanwhile. What the connection alone
   would have been sent is the beginning of what there is to read. The client gets all of that, to the
   end of what is committed by then, exactly when there is nothing to get, or the entries fit the ring
   and the last read finds nothing. Whenever the last read finds nothing, it lacks no more bytes than
   were evicted.
   */
  lemma ReplyUnderWriters(s: Sys, chunks: seq<seq<byte>>, ops: seq<Op>, more: nat)
    requires Inv(s.dev) && chunks != [] && 0 < more && Unsought(|s.cursors|, ops)
    ensures var fd, s', pos := |s.cursors|, AfterLock(s, chunks), Effect(s.dev, Request(chunks), chunks).1;
            var h, out, done := History(s', ops), Stream(s', ops, fd), ReadOut(s', ops, fd, more) == [];
            && (out == [] || pos + |out| <= |h|)
            && Session(s.dev, chunks).1 <= From(h, pos)
            && (out == From(h, pos) <==> |h| <= pos || (|Ever(s', ops)| <= MAX_WRITE_OPERATIONS && done))
            && (done ==> |h| - |Evicted(s', ops)| <= pos + |out|)
  {
    var s', fd := AfterLock(s, chunks), |s.cursors|;
    AfterLockState(s, chunks);
    LockedCallsTakeEffect(s, chunks);
    StreamUntilEmpty(s', ops, fd, more);
    FlattenPrefix(s'.dev.log, Ever(s', ops));
    FromKeepsPrefix(Contents(s'.dev), History(s', ops), s'.cursors[fd]);
  }

  lemma FromKeepsPrefix(a: seq<byte>, b: seq<byte>, k: nat)
    requires a <= b
    ensures From(a, k) <= From(b, k)
  {
  }

  /**
   Which bytes every read of a reply gives out, wherever the seek left the position and whatever is
   evicted: the history behind all that was evicted since the lock was released and all that was sent.
   */
  lemma ReplyReads(s: Sys, chunks: seq<seq<byte>>, a: seq<Op>, n: nat, b: seq<Op>)
    requires Inv(s.dev) && Unsought(|s.cursors|, a)
    ensures var fd, s' := |s.cursors|, AfterLock(s, chunks);
            && fd < |s'.cursors| && s'.cursors[fd] == Effect(s.dev, Request(chunks), chunks).1
            && InPlace(s', a, fd, n, b)
  {
    AfterLockState(s, chunks);
    PlaceOfRead(AfterLock(s, chunks), a, |s.cursors|, n, b);
  }

  lemma AfterLockState(s: Sys, chunks: seq<seq<byte>>)
    requires Inv(s.dev)
    ensures var s', fd := AfterLock(s, chunks), |s.cursors|;
            && Inv(s'.dev) && |s'.cursors| == fd + 1
            && s'.cursors[fd] == Effect(s.dev, Request(chunks), chunks).1
  {
    LockedCallsTakeEffect(s, chunks);
    InvOverRuns(s, LockedCalls(|s.cursors|, chunks));
  }

  // ---- Several connections

  /** A connection that has taken its turn: the file it opened and the pieces it received. */
  datatype Connection = Connection(fd: nat, chunks: seq<seq<byte>>)

  /** The write calls of connections that take the lock one after the other. */
  function ConnectionWrites(conns: seq<Connection>): seq<Op>
    decreases |conns|
  {
    if conns == [] then []
    else (if Request(conns[0].chunks) == None then WriteCalls(conns[0].fd, conns[0].chunks) else [])
         + ConnectionWrites(conns[1..])
  }

  /** What they send that is no command, one packet each. */
  function DataPackets(conns: seq<Connection>): seq<seq<byte>>
    decreases |conns|
  {
    if conns == [] then []
    else (if Request(conns[0].chunks) == None then [Flatten(conns[0].chunks)] else []) + DataPackets(conns[1..])
  }

  /** The write calls among the operations of a run. */
  function WriteOps(ops: seq<Op>): seq<Op>
    decreases |ops|
  {
    if ops == [] then [] else (if ops[0].Write? then [ops[0]] else []) + WriteOps(ops[1..])
  }

  /** Every write goes to a file that is open by then. */
  predicate WritesToOpenFiles(s: Sys, ops: seq<Op>)
    decreases |ops|
  {
    ops == [] ||
    ((ops[0].Write? ==> ops[0].fd < |s.cursors|) && WritesToOpenFiles(Step(s, ops[0]).0, ops[1..]))
  }

  function Payloads(ops: seq<Op>): seq<seq<byte>>
    decreases |ops|
  {
    if ops == [] then [] else (if ops[0].Write? then [ops[0].data] else []) + Payloads(ops[1..])
  }

  lemma {:induction false} WritesAreCalls(s: Sys, ops: seq<Op>)
    requires WritesToOpenFiles(s, ops)
    ensures Writes(s, ops) == Payloads(WriteOps(ops))
    decreases |ops|
  {
    if ops == [] {
    } else {
      var rest := WriteOps(ops[1..]);
      WritesAreCalls(Step(s, ops[0]).0, ops[1..]);
      assert ([ops[0]] + rest)[1..] == rest && [] + rest == rest;
    }
  }

  lemma {:induction false} PayloadsOfCalls(fd: nat, chunks: seq<seq<byte>>, more: seq<Op>)
    ensures Payloads(WriteCalls(fd, chunks) + more) == chunks + Payloads(more)
    decreases |chunks|
  {
    var calls := WriteCalls(fd, chunks);
    if chunks == [] {
      assert calls + more == more;
    } else {
      PayloadsOfCalls(fd, chunks[1..], more);
      assert (calls + more)[1..] == WriteCalls(fd, chunks[1..]) + more;
      assert chunks == [chunks[0]] + chunks[1..];
      Assoc([chunks[0]], chunks[1..], Payloads(more));
    }
  }

  /** The pieces of a packet form the same packets as the whole of it does, whatever follows. */
  lemma {:induction false} PiecesFormOnePacket(pending: seq<byte>, chunks: seq<seq<byte>>, more: seq<seq<byte>>)
    requires EndsAtNewline(chunks)
    ensures Packets(pending, chunks + more) == Packets(pending, [Flatten(chunks)] + more)
    ensures Leftover(pending, chunks + more) == Leftover(pending, [Flatten(chunks)] + more)
    decreases |chunks|
  {
    assert ([Flatten(chunks)] + more)[1..] == more;
    if chunks == [] {
      assert chunks + more == more && pending + [] == pending;
    } else if |chunks| == 1 {
      FlattenSingle(chunks[0]);
      assert chunks == [chunks[0]];
    } else {
      var first, rest := chunks[0], chunks[1..];
      assert !HasNewline(first);
      assert forall k :: 0 <= k < |rest| - 1 ==> rest[k] == chunks[k + 1];
      PiecesFormOnePacket(pending + first, rest, more);
      assert (chunks + more)[1..] == rest + more;
      assert ([Flatten(rest)] + more)[1..] == more;
      Assoc(pending, first, Flatten(rest));
    }
  }

  lemma {:induction false} ConnectionsFormPackets(pending: seq<byte>, conns: seq<Connection>)
    requires forall k :: 0 <= k < |conns| ==> EndsAtNewline(conns[k].chunks)
    ensures Packets(pending, Payloads(ConnectionWrites(conns))) == Packets(pending, DataPackets(conns))
    ensures Leftover(pending, Payloads(ConnectionWrites(conns))) == Leftover(pending, DataPackets(conns))
    decreases |conns|
  {
    if conns == [] {
    } else {
      var first, rest := conns[0], conns[1..];
      if Request(first.chunks) == None {
        var packet, packets := Flatten(first.chunks), DataPackets(rest);
        PayloadsOfCalls(first.fd, first.chunks, ConnectionWrites(rest));
        PiecesFormOnePacket(pending, first.chunks, Payloads(ConnectionWrites(rest)));
        assert ([packet] + packets)[1..] == packets;
        assert ([packet] + Payloads(ConnectionWrites(rest)))[1..] == Payloads(ConnectionWrites(rest));
        ConnectionsFormPackets(if HasNewline(packet) then [] else pending + packet, rest);
      } else {
        assert [] + ConnectionWrites(rest) == ConnectionWrites(rest) && [] + DataPackets(rest) == DataPackets(rest);
        ConnectionsFormPackets(pending, rest);
      }
    }
  }

  predicate AllComplete(packets: seq<seq<byte>>) {
    forall k :: 0 <= k < |packets| ==> HasNewline(packets[k])
  }

  lemma {:induction false} WholePackets(packets: seq<seq<byte>>)
    requires AllComplete(packets)
    ensures Packets([], packets) == packets && Leftover([], packets) == []
    decreases |packets|
  {
    if packets == [] {
    } else {
      WholePackets(packets[1..]);
      assert [] + packets[0] == packets[0];
      assert [packets[0]] + packets[1..] == packets;
    }
  }

  lemma {:induction false} PacketsCount(pending: seq<byte>, ws: seq<seq<byte>>)
    ensures |Packets(pending, ws)| <= |ws|
    ensures |Packets(pending, ws)| == |ws| ==> AllComplete(ws)
    decreases |ws|
  {
    if ws == [] {
    } else {
      PacketsCount(if HasNewline(ws[0]) then [] else pending + ws[0], ws[1..]);
    }
  }

  /** What is written is committed as it is, neither cut up nor joined, exactly when this holds. */
  predicate Unmixed(pending: seq<byte>, packets: seq<seq<byte>>) {
    packets == [] || (pending == [] && AllComplete(packets))
  }

  lemma PacketsUnmixed(pending: seq<byte>, packets: seq<seq<byte>>)
    ensures Packets(pending, packets) == packets <==> Unmixed(pending, packets)
  {
    if Unmixed(pending, packets) {
      WholePackets(packets);
    } else {
      PacketsCount(pending, packets);
      if AllComplete(packets) {
        assert |Packets(pending, packets)[0]| == |pending| + |packets[0]|;
      }
    }
  }

  /**
   In any run whose write calls are those of connections taking turns, with anything else in between,
   what is committed is formed from the connections' packets in lock order, each as a whole. It is
   exactly those packets, none mixed with another, if and only if there are none, or nothing was
   pending and each of them has a newline: one whose stream ended before is joined to the next.
   */
  lemma WhenConnectionsMix(s: Sys, ops: seq<Op>, conns: seq<Connection>)
    requires |s.dev.log| <= MAX_WRITE_OPERATIONS
    requires WritesToOpenFiles(s, ops) && WriteOps(ops) == ConnectionWrites(conns)
    requires forall k :: 0 <= k < |conns| ==> EndsAtNewline(conns[k].chunks)
    ensures var packets := DataPackets(conns);
            && Committed(s, ops) == Packets(s.dev.pending, packets)
            && (Committed(s, ops) == packets <==> Unmixed(s.dev.pending, packets))
            && Exec(s, ops).dev == Device(LastN(MAX_WRITE_OPERATIONS, s.dev.log + Packets(s.dev.pending, packets)),
                                          Leftover(s.dev.pending, packets))
  {
    WritesAreCalls(s, ops);
    ConnectionsFormPackets(s.dev.pending, conns);
    DeviceIsLastPackets(s, ops);
    PacketsUnmixed(s.dev.pending, DataPackets(conns));
  }

  // ---- Clients served one after the other

  /** The data packets of the clients for which the device could be opened. */
  function ClientPackets(clients: seq<Client>): seq<seq<byte>>
    decreases |clients|
  {
    if clients == [] then []
    else
      var n := |clients| - 1;
      var chunks := Received(clients[n].incoming);
      ClientPackets(clients[..n])
      + if clients[n].openOk && chunks != [] && Request(chunks) == None then [Flatten(chunks)] else []
  }

  /** The device after any clients were served in turn holds the last ten packets formed from theirs. */
  lemma {:induction false} SessionsKeepLastPackets(d: Device, clients: seq<Client>)
    requires |d.log| <= MAX_WRITE_OPERATIONS
    ensures var packets := ClientPackets(clients);
            Sessions(d, clients).0 == Device(LastN(MAX_WRITE_OPERATIONS, d.log + Packets(d.pending, packets)),
                                             Leftover(d.pending, packets))
    decreases |clients|
  {
    if clients == [] {
      assert d.log + [] == d.log;
    } else {
      var n := |clients| - 1;
      var before, chunks := clients[..n], Received(clients[n].incoming);
      SessionsKeepLastPackets(d, before);
      if clients[n].openOk && chunks != [] && Request(chunks) == None {
        PacketCommit(Sessions(d, before).0, chunks);
        OneMorePacket(d, ClientPackets(before), Flatten(chunks));
        assert Sessions(d, clients).0 == WriteTo(Sessions(d, before).0, Flatten(chunks));
      } else {
        assert ClientPackets(before) + [] == ClientPackets(before);
        assert Sessions(d, clients).0 == Sessions(d, before).0;
      }
    }
  }

  /** Writing one more packet. */
  lemma OneMorePacket(d: Device, packets: seq<seq<byte>>, next: seq<byte>)
    requires |d.log| <= MAX_WRITE_OPERATIONS
    ensures var all := packets + [next];
            WriteTo(Device(LastN(MAX_WRITE_OPERATIONS, d.log + Packets(d.pending, packets)),
                           Leftover(d.pending, packets)), next)
            == Device(LastN(MAX_WRITE_OPERATIONS, d.log + Packets(d.pending, all)), Leftover(d.pending, all))
  {
    var pending := Leftover(d.pending, packets);
    PacketsConcat(d.pending, packets, [next]);
    assert ([next])[1..] == [];
    if HasNewline(next) {
      assert Packets(pending, [next]) == [pending + next];
      PushLast(MAX_WRITE_OPERATIONS, d.log + Packets(d.pending, packets), pending + next);
      Assoc(d.log, Packets(d.pending, packets), [pending + next]);
    } else {
      assert Packets(pending, [next]) == [];
      assert Packets(d.pending, packets) + [] == Packets(d.pending, packets);
    }
  }

  lemma PushLast<T>(n: nat, all: seq<T>, x: T)
    requires 0 < n
    ensures Push(n, LastN(n, all), x) == LastN(n, all + [x])
  {
  }
}
