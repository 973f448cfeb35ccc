# The AESD character device and its socket server

A model, with proofs, of the three programs that carry a client's bytes: the circular buffer of write
operations (`aesd-char-driver/aesd-circular-buffer.c`), the character device driver over it
(`aesd-char-driver/main.c`) and the client handling of the socket server (`server/aesdsocket.c`).

The device keeps the last ten writes that contain a newline, oldest first, and a pending partial write
in front of the next one. Files opened on it have a position in the concatenation of the kept writes. The
server receives a packet in pieces; a packet that is the line `AESDCHAR_IOCSEEKTO:<write>,<offset>` moves the
position of the file, any other packet is written; then everything from the position on is sent back.

## How it is laid out

| file | what it holds |
|---|---|
| `Bytes.dfy` | bytes, flattening, sums, slices |
| `BoundedLog.dfy` | the reference: a bounded log and the flat positions of its bytes |
| `CircularBuffer.dfy` | the ring, as a class over an array of slots, for any capacity from 1 up |
| `Slab.dfy` | the allocator as the driver relies on it, with a ghost record of every block |
| `DeviceModel.dfy` | one operation on the device, on values |
| `AesdChar.dfy` | the driver's handlers, as a class over the ring, the pending entry and heap blocks |
| `Runs.dfy` | theorems about whole runs of operations on any files |
| `Streams.dfy` | what the reads of one file give out over a run, with anything else in between |
| `Shortfalls.dfy` | runs from a freshly loaded device on which expectations fail |
| `FileOperations.dfy` | any sequence of calls on the driver's objects is such a run; loading to unloading |
| `SeekCommand.dfy` | the language of the seek command and the scan for it over a linked list |
| `Server.dfy` | one client connection, and any clients served in turn |
| `Connections.dfy` | connections as parts of a run: replies while other clients write, packets of many connections |
| `Delivery.dfy` | which bytes of the history a file's reads give out, and when a client gets back the packet it wrote |
| `ThreadList.dfy` | the linked list of client threads over allocation, start, join and free of its nodes |

Every handler and loop is a method over mutable objects, proved against a function on values; the theorems
are lemmas about those functions and about runs, which are arbitrary sequences of operations in the order in
which they take the device lock. `DeviceModel.Inv` is what every reachable state keeps: at most ten entries,
each with a newline, and none in the pending bytes.

## What the proofs bring out

* The seek command's comment in the header calls both numbers zero referenced. The code also accepts one past
  the last byte of a write and one past the last write (`BoundedLog.SeekBoundary`). On a full ring, write 10
  with an offset of 1 up to the length of the oldest entry is accepted and leaves the position past the end of
  the data; that is the only seek that does (`BoundedLog.SeekPastEnd`). `Shortfalls.SeekPastEndRun` is a run
  that does it: position 11 in 10 bytes.
* So a position can lie outside the data. `DeviceModel.CursorStaysInRange` says exactly when one step makes it,
  `Runs.CursorsStayInRange` the same for whole runs; the other way is an eviction that shrinks the data below a
  reader (`Shortfalls.CutOffRun`: position 20 in 19 bytes).
* File positions are not moved when an entry is dropped. A reader that has seen everything gets the next packet
  from its first byte exactly when the ring was not full; otherwise it passes over as many bytes of that packet
  as the dropped entry was long (`DeviceModel.CaughtUpReader`; `Shortfalls.MissedBytesRun` is such a run).
  `Runs.ConsecutiveReads` therefore speaks of how many bytes are passed over, not of which.
* The server reads the reply back without its lock. With other clients writing meanwhile, the client gets all
  that is committed by then, from its position on, exactly when nothing lies behind that position, or the ring
  still holds everything since the lock was released and the last read found nothing
  (`Connections.ReplyUnderWriters`). When its last read found nothing, it lacks no more bytes than were evicted;
  `Connections.ReplyReads` says where each read's bytes come from.
* So a client may not get back the packet it has just written: `Shortfalls.LostPacketRun` is a run in which the
  reply, read to the end, consists of other clients' packets. `Delivery.OwnPacketInReply` says exactly when the
  packet is in the reply as a whole: when no eviction moves the reads into it or past it before they are through.
* A packet whose stream ends before a newline stays pending and becomes one entry with the next client's packet
  (`Server.DataReply`, `Shortfalls.MixingRun`). Packets of different connections are committed unmixed exactly
  when nothing was pending and each has a newline, or when there are none (`Connections.WhenConnectionsMix`).
* A seek command that the device refuses is only logged by the server, which then sends the whole contents
  (`Server.OutOfRangeSeekReply`).
* The two numbers of a seek command are kept modulo 2^32 (`SeekCommand.NumbersWrap`), so one that is too large is
  not refused: write 4294967297 is answered as write 1 is (`Shortfalls.WrapRun`).
* A node whose thread could not be started is neither linked nor freed: `ThreadList.Threads.Accounted` counts it apart.
* The comment on the search for an entry says that the byte offset is set only when the position is found. The
  code sets it to 0 when the search runs to its end; the model follows the code.

## Model

| member | source | states |
|---|---|---|
| BoundedLog.PushAllKeepsLast | aesd-char-driver/aesd-circular-buffer.c:188-225 | any sequence of additions keeps exactly the last n entries ever added, for every capacity n |
| BoundedLog.PositionOrder | aesd-char-driver/aesd-circular-buffer.c:164-182 | flat positions are ordered as (entry, byte) pairs are, lexicographically, and equal only for equal pairs |
| BoundedLog.PositionsCovered | aesd-char-driver/aesd-circular-buffer.c:113-120 | a position below the total is one and only one byte of one entry, and no other position is |
| BoundedLog.SeekInvertsFind | aesd-char-driver/aesd-circular-buffer.c:39-186 | the two searches undo each other on the zero-referenced pairs, in both directions, zero-size entries included |
| BoundedLog.SeekBoundary | aesd-char-driver/aesd-circular-buffer.c:81-109 | which seeks outside that range are accepted, exactly, and the position each yields |
| BoundedLog.SeekPastEnd | aesd-char-driver/aesd-circular-buffer.c:81-109 | a seek ends past the data iff it names the write after a full ring and an offset from 1 to the oldest entry's size |
| BoundedLog.PositionIndexesFlatten | aesd-char-driver/aesd-circular-buffer.c:113-120 | the byte a pair names is the byte of the concatenation at its position, and so is the rest of its entry |
| CircularBuffer.NextSlot | aesd-char-driver/aesd-circular-buffer.c:181 | the wraparound step is one place on in the ring |
| CircularBuffer.Offsets.Advance | aesd-char-driver/aesd-circular-buffer.c:206-222 | an addition raises the count by one up to the capacity and keeps the offsets consistent |
| CircularBuffer.AdvancePushes | aesd-char-driver/aesd-circular-buffer.c:205-222 | storing at the in-offset and advancing appends to the bounded log, and the slot overwritten is the oldest entry or an empty one |
| CircularBuffer.OffsetsReached | aesd-char-driver/aesd-circular-buffer.c:195-236 | from the initial state: out-offset 0 until full, full never clears, so a ring that is not full never wraps |
| CircularBuffer.Ring.Init | aesd-char-driver/aesd-circular-buffer.c:230-236 | the ring starts empty with null slots |
| CircularBuffer.Ring.AddEntry | aesd-char-driver/aesd-circular-buffer.c:195-225 | appends to the bounded log, returns exactly the pointer it overwrites, and what slots and offsets become |
| CircularBuffer.Ring.GetLength | aesd-char-driver/aesd-circular-buffer.c:19-37 | the sum over physical slots is the sum over the entries from oldest to newest that have a buffer |
| CircularBuffer.SumOfRotation | aesd-char-driver/aesd-circular-buffer.c:28-34 | summing slots in array order equals summing from any start, unused slots being empty |
| CircularBuffer.Ring.NumIterations | aesd-char-driver/aesd-circular-buffer.c:62-79 | the three cases give the number of entries held, wrapped or not |
| CircularBuffer.Ring.FindSeektoFpos | aesd-char-driver/aesd-circular-buffer.c:39-110 | the loop computes the reference position of a (write, offset) pair, or -1, boundary cases included |
| CircularBuffer.Ring.FindEntryOffsetForFpos | aesd-char-driver/aesd-circular-buffer.c:122-186 | the counting loops find the one slot and byte that hold the position, and no slot exactly when it is not below the total |
| Slab.Allocator.Krealloc | aesd-char-driver/main.c:166 | same block or a fresh one, the old bytes kept, the old block freed once if replaced; for size 0 the old block is freed and there is no new one |
| Slab.Allocator.Kfree | aesd-char-driver/main.c:184 | only a live block may be freed, and then it is live no more; freeing what a zero-size allocation gave does nothing |
| Slab.Memcpy | aesd-char-driver/main.c:174 | the new bytes follow the old ones and nothing else changes |
| DeviceModel.ReadIsSlice | aesd-char-driver/main.c:80-97 | a read is a slice of the contents at its position, and empty only at or past the end or for count 0 |
| DeviceModel.ReadGives | aesd-char-driver/main.c:89-97 | a read gives exactly as many bytes as were asked for, or the rest of its entry when that is shorter |
| DeviceModel.WriteKeepsInv | aesd-char-driver/main.c:145-190 | every write keeps the invariant, and scanning the new bytes decides as scanning the whole entry would |
| DeviceModel.WriteShiftsContents | aesd-char-driver/main.c:162-190 | a write appends the whole packet to the contents and drops exactly the oldest entry from the front |
| DeviceModel.CaughtUpReader | aesd-char-driver/main.c:80-97 | a caught-up reader gets a new packet whole iff the ring had room, and else how much of it is passed over |
| DeviceModel.LlseekAgreement | aesd-char-driver/main.c:231-256 | the three ways of naming a position have the same outcome, refused exactly outside the data, others untouched |
| DeviceModel.LlseekRefused | aesd-char-driver/main.c:231-256 | a seek is refused with -22 iff it is none of the three kinds or leads outside the data, and then changes nothing |
| DeviceModel.IoctlExactly | aesd-char-driver/main.c:266-312 | for every command and pair: which error, or the position counted over all writes before, one past a write and past a full ring included |
| DeviceModel.CallsTouch | aesd-char-driver/main.c:32-312 | only writes change the device, only the file's own position moves, a failing call changes nothing, and what opening, reading and writing return |
| DeviceModel.SeektoIsLlseek | aesd-char-driver/main.c:301-312 | the seek command on an in-range pair is a plain seek to that byte of the contents |
| DeviceModel.CursorStaysInRange | aesd-char-driver/main.c:227-312 | a position leaves the data iff an evicting write shrinks the data below it or the seek command names write 10 of a full ring with an offset above 0 |
| AesdChar.AesdDev.Init | aesd-char-driver/main.c:352-357 | the device starts empty with no block allocated |
| AesdChar.AesdDev.Read | aesd-char-driver/main.c:80-108 | the bytes read from heap blocks are those of the model, whose number DeviceModel.ReadGives states, and the position advances by it |
| AesdChar.AesdDev.Reserve | aesd-char-driver/main.c:166-173 | there is room for the new bytes and the text is unchanged, whether or not the block moved |
| AesdChar.AesdDev.Append | aesd-char-driver/main.c:165-175 | the pending text grows by the new bytes in the same or a new block, blocks stay owned once |
| AesdChar.AesdDev.StoreEntry | aesd-char-driver/main.c:178-190 | the pending block moves to the ring and the replaced one is freed; ring slots, pending and freed stay disjoint |
| AesdChar.AesdDev.Commit | aesd-char-driver/main.c:178-190 | the pending text becomes the newest entry of the log and nothing is pending |
| AesdChar.AesdDev.Write | aesd-char-driver/main.c:145-197 | a write on the heap has the effect of the model's write, whatever the allocator does |
| AesdChar.AesdDev.Llseek | aesd-char-driver/main.c:227-256 | result and position for every offset and whence, errors included |
| AesdChar.AesdDev.Ioctl | aesd-char-driver/main.c:266-312 | result and position for every command and pair, errors included |
| AesdChar.AesdDev.Cleanup | aesd-char-driver/main.c:377-389 | afterwards no block is live and each block ever allocated was freed exactly once |
| Runs.DeviceIsLastPackets | aesd-char-driver/main.c:162-191 | after any run the device is the last ten packets formed by the accepted payloads and the leftover, whatever else was interleaved |
| Runs.PacketsConserve | aesd-char-driver/main.c:165-190 | cutting payloads into packets loses and reorders nothing |
| Runs.HistorySplits | aesd-char-driver/main.c:162-191 | everything ever committed is what was evicted followed by the contents |
| Runs.HistoryGrows | aesd-char-driver/main.c:162-191 | in a longer run, history and evicted bytes only grow at their ends |
| Runs.Conservation | aesd-char-driver/main.c:162-191 | over every run, initial contents, pending and accepted bytes equal evicted, contents and pending, in order |
| Runs.ConservationFromInit | aesd-char-driver/main.c:352-359 | the same from a freshly loaded module |
| Runs.InvOverRuns | aesd-char-driver/main.c:145-190 | the invariant holds in every state a run reaches |
| Runs.PacketsCompleted | aesd-char-driver/main.c:145-190 | every packet has its first newline in the payload that completed it |
| Runs.ReadReturnsHistory | aesd-char-driver/main.c:74-108 | under any interleaving a read is a slice of the committed history at evicted bytes plus position, for good |
| Runs.ConsecutiveReads | aesd-char-driver/main.c:74-108 | two reads of a file with no seek between repeat nothing and pass over as many bytes as were evicted in between |
| Runs.CursorsStayInRange | aesd-char-driver/main.c:227-312 | over any run, evictions included, all positions stay within the data iff no step is an eviction below a position or the seek past a full ring |
| Runs.FittingRunStaysInRange | aesd-char-driver/main.c:227-312 | in particular they do over runs that evict nothing and name writes 0 to 9 in seeks |
| Runs.LateSeekIsAtomic | aesd-char-driver/main.c:229-254 | setting the position after the lock is released, with other operations in between, equals one step, for both seeks, unless the same file's position is moved meanwhile |
| Streams.PositionFollowsStream | aesd-char-driver/main.c:97-106 | without seeks a position is moved by exactly what the file's reads gave out |
| Streams.ReadOfStream | aesd-char-driver/main.c:74-108 | under any interleaving, evictions included, each read of a file gives the history behind all that was evicted and all that was read before, and the stream is what came before, this read and what came after |
| Streams.PlaceOfRead | aesd-char-driver/main.c:80-97 | the place in the history of any read, in every longer run |
| Streams.StreamBehindHistory | aesd-char-driver/main.c:80-97 | reading never gets ahead of the history, and once anything is evicted it stays behind a history that reaches past its starting position |
| Streams.StreamUntilEmpty | server/aesdsocket.c:449-459 | for any interleaving and any starting position, a reader gets everything committed by then iff there is nothing behind its position, or nothing was evicted and its next read is empty; whenever its next read is empty it lacks at most what was evicted |
| Streams.ReadUntilEmpty | server/aesdsocket.c:449-459 | reads of any positive sizes give the contents in order, all of them iff the next read is empty, within as many reads as bytes |
| Shortfalls.SeekPastEndRun | aesd-char-driver/aesd-circular-buffer.c:81-109 | ten one-byte packets, then the seek command (10, 1): accepted, position 11 with 10 bytes of contents |
| Shortfalls.CutOffRun | aesd-char-driver/main.c:178-190 | a caught-up reader at 20 is left there with 19 bytes of contents by a shorter packet that evicts |
| Shortfalls.MissedBytes | aesd-char-driver/main.c:80-97 | after ten equal packets a caught-up reader gets a longer packet only from the byte at the evicted one's length on |
| Shortfalls.MissedBytesRun | aesd-char-driver/main.c:80-97 | on such a run from a fresh device "abc" and a newline is read from the "c" on |
| Shortfalls.TwoClients | server/aesdsocket.c:345-353 | a short packet whose stream ended before a newline becomes one entry with the next client's, for all such packets |
| Shortfalls.MixingRun | server/aesdsocket.c:345-353 | one client sends "ab" and closes, the next "c" and a newline: the entry "abc" is committed |
| Shortfalls.LostPacketRun | server/aesdsocket.c:445-461 | on a full ring, with ten packets of another client before the read-back, a client's reply is those ten, without its own |
| Shortfalls.WrapRun | server/aesdsocket.c:250-302 | with two writes on the device, a command for write 4294967297 is answered with the rest of write 1, for all packets and offsets within it |
| FileOperations.Kernel.Open | aesd-char-driver/main.c:32-39 | a new file starts at position 0 and the others stay |
| FileOperations.Kernel.Call | aesd-char-driver/main.c:315-323 | a call on the objects is one step of the model, state and result |
| FileOperations.Kernel.Run | aesd-char-driver/main.c:315-323 | any calls in any order are a run of the model, state and all results, and further calls can follow |
| FileOperations.Lifetime | aesd-char-driver/main.c:340-394 | from loading to unloading with any calls between, every block allocated is freed exactly once |
| SeekCommand.Language | server/aesdsocket.c:268-303 | a line is accepted iff it is the command, digits, a comma, and digits or commas; what is kept of each number is below 2^32 and differs from it by a multiple of 2^32 |
| SeekCommand.NumbersWrap | server/aesdsocket.c:250-302 | both numbers wrap around modulo 2^32, for any number of digits |
| SeekCommand.ValueIsPositional | server/aesdsocket.c:293-301 | the digits are decimal, most significant first: one more in front counts for its power of ten |
| SeekCommand.DropCommasFilters | server/aesdsocket.c:283-301 | commas within the offset are passed over and its digits kept in order |
| SeekCommand.DropOneComma | server/aesdsocket.c:285-288 | of single bytes only the comma is passed over |
| SeekCommand.DigitCharacters | server/aesdsocket.c:289-301 | a byte counts as a digit iff it is one of the ten digit characters, with that digit's value |
| SeekCommand.Characters | server/aesdsocket.c:27 | the bytes of the command and of the separators are those of the program's character constants |
| SeekCommand.WrapExample | server/aesdsocket.c:250-302 | write number 4294967297 is taken for 1 |
| SeekCommand.ValueOfDecimal | server/aesdsocket.c:293-301 | a printed number is read back, and no prefix of it is larger |
| SeekCommand.RoundTrip | server/aesdsocket.c:245-317 | for all 32-bit numbers the printed command is parsed to exactly those numbers |
| SeekCommand.NumbersStep | server/aesdsocket.c:283-302 | one more byte changes the two numbers as the program's wrapping arithmetic does |
| SeekCommand.ScanSeesFirstLine | server/aesdsocket.c:259-306 | if only the last piece has a newline, the scan sees the first line of the flattened packet |
| SeekCommand.ScanByte | server/aesdsocket.c:268-303 | one byte keeps the variables in step with the bytes seen, or shows that no continuation is a command |
| SeekCommand.ScanNode | server/aesdsocket.c:261-304 | the inner loop covers a node up to its newline |
| SeekCommand.FindCommand | server/aesdsocket.c:245-317 | the nested loops over the linked list give the declarative parse, for every list |
| Server.Received | server/aesdsocket.c:341-394 | of what is received no piece but the last has a newline |
| Server.ReceivedExactly | server/aesdsocket.c:341-394 | what is received is the pieces as they arrived, whole, up to and with the first that has a newline, or up to an empty one or the last |
| Server.PacketCommit | server/aesdsocket.c:428-442 | writing the pieces one by one is one write of the whole packet |
| Server.SessionOfPacket | server/aesdsocket.c:341-461 | effect and reply depend on the packet's bytes only, not on the pieces |
| Server.LineReceived | server/aesdsocket.c:341-417 | whatever the non-empty pieces, the scan of what is received sees the first line of what arrives |
| Server.SeekReply | server/aesdsocket.c:341-461 | a client that sends an in-range seek command, cut up anyhow, gets exactly the contents from that byte on, and the device is unchanged |
| Server.OutOfRangeSeekReply | server/aesdsocket.c:416-461 | the reply to every other seek command |
| Server.DataReply | server/aesdsocket.c:425-461 | any other packet goes behind the pending bytes: with a newline all of it becomes one entry, without one it stays pending and the contents are as before; the reply is the whole contents |
| Server.NothingDone | server/aesdsocket.c:401-414 | when nothing arrives, or the device cannot be opened, nothing is sent and the device stays as it is |
| Server.DataArrives | server/aesdsocket.c:341-461 | a packet that is no command: all bytes that arrived in its pieces, those behind the newline included, go behind the pending ones and become one entry or stay pending, and the reply is the whole contents |
| Server.CommandArrives | server/aesdsocket.c:341-461 | the reply to every seek command, with digits of any length, cut up anyhow: from the byte named on, nothing, or the whole contents, by what is kept of the two numbers |
| Server.FindNewline | server/aesdsocket.c:380-388 | finds whether a piece has a newline |
| Server.ReceivePacket | server/aesdsocket.c:331-396 | builds, behind the dummy head, the linked list of exactly the pieces of one packet, which Server.ReceivedExactly determines |
| Server.WritePacket | server/aesdsocket.c:427-442 | writes the list to the device node by node; blocks that are live afterwards and were not before are new |
| Server.ReadBack | server/aesdsocket.c:447-460 | sends exactly the contents from the file's position on, and ends |
| Server.CarryOut | server/aesdsocket.c:416-443 | the seek or the write, and where the file's position ends up |
| Server.ProcessClientConnection | server/aesdsocket.c:341-461 | a whole connection on the objects has the effect and the reply of the session on values, none of either when nothing arrives or the device cannot be opened, and leaves the device fit for the next |
| Server.ServeAll | server/aesdsocket.c:341-461 | serving any clients in turn leaves the device and each socket as the sessions one after the other do |
| Server.SessionsReply | server/aesdsocket.c:341-461 | each client's reply is that of its own connection on the device as those before it left it |
| Server.SendNext | server/aesdsocket.c:449-458 | one read of up to 1024 bytes and send moves bytes from what is still to come to what was sent, and gives nothing only at the end |
| Connections.LockedCallsTakeEffect | server/aesdsocket.c:398-445 | the device calls made under the server's lock, as a run, have the connection's effect |
| Connections.StartsWithinData | server/aesdsocket.c:416-424 | a connection starts reading past the data iff it sent the seek for write 10 of a full ring with an offset from 1 to the oldest entry's size |
| Connections.ReplyUnderWriters | server/aesdsocket.c:445-461 | with other clients doing anything during the unlocked read-back, the reply is everything committed from the position on iff there is nothing there, or nothing was evicted and the last read was empty; whenever the last read was empty it lacks at most what was evicted |
| Connections.ReplyReads | server/aesdsocket.c:447-460 | the reply's reads start where the seek or write left the position, and each gives the history behind all that was evicted and all that was sent |
| Connections.PiecesFormOnePacket | server/aesdsocket.c:428-442 | the pieces of one packet form the same packets as the whole, whatever is pending and whatever follows |
| Connections.ConnectionsFormPackets | server/aesdsocket.c:398-445 | connections taking turns form the packets and the leftover that one write each would |
| Connections.PacketsUnmixed | aesd-char-driver/main.c:145-191 | payloads are committed as they are, neither joined nor cut, iff there are none, or nothing was pending and each has a newline |
| Connections.WhenConnectionsMix | server/aesdsocket.c:398-445 | in any run whose writes are those of connections taking turns, what is committed is formed from their packets in lock order, and is exactly those packets iff none was pending and each has a newline, or there are none |
| Connections.SessionsKeepLastPackets | server/aesdsocket.c:341-461 | after any clients were served in turn the device holds the last ten packets formed from theirs, and the leftover |
| Delivery.EvictedOneMore | aesd-char-driver/main.c:178-184 | one more operation evicts exactly the oldest entry when it commits to a full ring, and else nothing |
| Delivery.GivenMatches | aesd-char-driver/main.c:80-97 | each byte the reads give out is the byte of the history at its recorded place |
| Delivery.GivenInOrder | aesd-char-driver/main.c:80-97 | nothing is given out twice or out of order, under any interleaving |
| Delivery.GivenExactly | aesd-char-driver/main.c:80-106 | a byte of the history is given out iff it lies between the starting position and the place reached and no eviction passes over it |
| Delivery.GivenWholeExactly | aesd-char-driver/main.c:80-106 | a stretch of the history is given out as a whole iff the reads get to its end and no eviction moves them into it or past it before |
| Delivery.GivenInOnePiece | server/aesdsocket.c:449-459 | a stretch given out as a whole stands in the reply in one piece |
| Delivery.OwnPacketInReply | server/aesdsocket.c:425-460 | a client's own packet is in its reply as a whole, in one piece, iff the reads get to its end, as they do once one is empty, and no eviction cuts into it before |
| ThreadList.SelectPartitions | server/aesdsocket.c:535-552 | sorting the threads by their flags loses and doubles none |
| ThreadList.Process.Schedule | server/aesdsocket.c:471 | any running threads may finish; the flags of the threads not yet joined say exactly which have |
| ThreadList.Process.PthreadCreate | server/aesdsocket.c:512-520 | a thread is started, if it can be, on a live node whose flag is down and on which none was started before |
| ThreadList.Process.PthreadJoin | server/aesdsocket.c:544 | only a thread that has finished and was not joined is joined |
| ThreadList.Process.Free | server/aesdsocket.c:545 | only a live node that no thread runs on is freed, and nothing is known of its fields afterwards |
| ThreadList.Threads.Link | server/aesdsocket.c:524-530 | the walk to the end links the new node last and the list stays acyclic |
| ThreadList.Threads.Append | server/aesdsocket.c:507-530 | a node with its flag down is allocated; if its thread starts it is the last of the list, else it is in none; no thread is taken to have finished by it |
| ThreadList.Remove | server/aesdsocket.c:539-545 | unlinking, joining and freeing in this order leaves the rest of the walk intact and uses no freed node |
| ThreadList.Visit | server/aesdsocket.c:535-552 | one round removes a node seen to be done or passes it; seen to be done are all whose threads had finished before and only such as have finished |
| ThreadList.ReapLoop | server/aesdsocket.c:532-553 | each node is sorted out once, by the flag seen, which is set for all threads that had finished before and only for finished ones; those kept stay linked in order, the others are joined and freed in order |
| ThreadList.Threads.Reap | server/aesdsocket.c:532-553 | the list afterwards is the old one without the threads seen to be done, in order; all that had finished before are freed, and only threads that have finished have left the list |
| ThreadList.Threads.Accounted | server/aesdsocket.c:507-553 | every node ever allocated is in the list, or freed, or had no thread started, exactly one of them, and freed at most once; no freed node is in the list, and the threads of all freed nodes had finished |
| ThreadList.Threads.Accept | server/aesdsocket.c:507-555 | after an accepted connection the list is (old ++ [new]) without the threads seen to be done; a thread that had finished before is joined, freed and not in the list, and only threads that have finished have left it, the new one included |

## Left out

- Kernel and module plumbing (device registration, open and release beyond the position, logging) and NULL argument checks: foreign calls without logic of their own.
- Failing allocations and failing copies from and to user space: they are taken to succeed; the failure paths of the driver return with the lock held or with a null pointer and a stale size, and keep no invariant.
- The temporary copy of a write's bytes in the driver, which is never freed: only the blocks of entries are tracked.
- AesdChar.AesdDev.Llseek: the driver reads the total under the lock and sets the position after releasing it; the method does both in one step, which Runs.LateSeekIsAtomic shows to be the same unless the same open file's position is moved by another thread in between, which is not modelled.
- AesdChar.AesdDev.Ioctl: the same; the position is worked out under the lock and set after releasing it.
- Overflow of size_t and loff_t and the 8-bit slot indices: stored bytes and positions are unbounded, and the ring is proved for every capacity; wrap-around is modelled where the program relies on it, in the two numbers of the seek command.
- SeekCommand.FindCommand: the command is any non-empty string of bytes, as a terminated string constant is; an empty one is not modelled.
- Server.ReceivePacket: a piece that arrives is any non-empty string; the limit of 1024 bytes per call is not imposed, and a failing allocation is not modelled.
- Freeing of the received nodes, which the server does only after writing them, and their buffers as heap memory: a node's bytes are a value.
- Short and failing writes of the server to the device, failing sends, threads still running at exit, signals, the daemon, the timer and its timestamps.
- ThreadList.Process.PthreadJoin: a thread that has set its flag has still to return, and a join may wait for that; the wait is not modelled. The unsynchronized accesses to a thread's flag are taken to be atomic.
- The scripts, the other assignments and the examples of the repository: they have no state to reason about.
