# Verification of the adb, Vulkan layer and fastboot code

A Dafny model of the code in this repository that has the most state and the longest runs, with proofs about every
run. `dafny verify dfyconfig.toml` checks all of it.

- **The adb stream engine.** `Stream*.dfy` models one stream as atomic steps of two endpoints over FIFO channels:
  fd readable, fd writable with any accepted byte count or EAGAIN, packet delivered, close. `StreamInvariant.dfy` says
  what every reachable state satisfies, `StreamPreservation.dfy` that every step keeps it, `StreamTheorems.dfy` what
  follows for every run, `StreamSession.dfy` where a stream gets from its OPEN to its last CLSE, and `StreamBacklog.dfy`
  what delayed acks are needed for. `LocalSocket.dfy` holds the local socket's own part, shared with `SocketGraph.dfy`,
  which models the sockets of one process as linked heap objects, and with `LocalPair.dfy`, for two local sockets that
  are each other's peers. `StreamSocket.dfy` shows that a socket of the graph with a remote peer makes the steps of a
  stream's endpoint, and `StreamSystem.dfy` that two of them in two processes make the runs that the theorems are about,
  and all of them. `IOVector.dfy` is the rope below them, `PacketReader.dfy` the packet reader, `FdConnection.dfy` the
  nonblocking connection, and `Listeners.dfy` the listeners and their registration with transports.
- **The Vulkan layer.** `PcTable.dfy` and `AliasTable.dfy` are its hash tables, `PushConstants.dfy` its purpose for
  push constants as a theorem about recordings, `PushRecording.dfy` the condition for that in terms of the recording
  alone, `PushConstantLayer.dfy` its entry points over the tables, and `PNextChain.dfy` the unlinking and restoring of
  pNext chains.
- **Fastboot and shell framing.** `SparseWriter.dfy`, `TcpSocket.dfy`, `TcpTransport.dfy`, `ShellProtocol.dfy`,
  `HostService.dfy`, and `BootImage.dfy` over `PageRounding.dfy`. `LittleEndian.dfy` is for numbers in headers.

Objects that the source updates in place are classes; their methods are proved against functions on values, and the
theorems are about those functions. Results of system calls (bytes accepted, EAGAIN, errors, end of file) are
parameters or arbitrary choices, so that every proof covers every outcome.

Some promises do not hold for all inputs. For these, the model keeps the code as it is and proves exactly when the
promise holds, with an input for which it does not:

- `IOVector::drop_front` counts in an `unsigned int` (DropsExactlyIff, DropsTooMuch).
- Without delayed acks the receiver's queue has no bound (QueueIsBoundedIff); with them CreditConserved gives one.
- A local socket whose local peer could not take all at once never reads again (LosesWakeupIff, LosesWakeup).
- The CHECK in `DispatchWrites` can fail after a Write between poll and the lock (CheckFailsIff, CheckCanFail).
- `alias_add` can store a handle twice (AddIsCleanIff, AddsTwice).
- The push constant shadow is shared by all stages (StepAgreesIff, RecordingAgreesIff, ComputePushSpoilsGraphics).
- The buffer-list `Send` never ends with an empty last buffer, which `TcpTransport::Write` passes for an empty message
  (SendEndsIff, EmptyWriteNeverEnds); the single-buffer `Send` repeats the front of the buffer (SingleSendIff).
- `parse_host_service` indexes an empty view (OutOfBoundsIff).
- The mask rounding of `mkbootimg` needs a power of two (RoundsUpIff), its first section goes to `page_size`, which a
  header may reach beyond (MkbootimgHeaderIff, KernelOverwritesHeader), and its header holds sizes in a `uint32_t`, so
  that a loader that goes by them misses sections (LoaderFindsIff, LoaderFindsAllIff, BigKernelHidesRamdisk).
- `install_listener` can dereference a null transport (InstallListener says when, InstallDereferencesNull how). No
  present caller reaches it: the one that passes null (client/main.cpp:162) runs before there is any forward.

The framing reader of `NonblockingFdConnection` delivers at most one packet a read, and the model follows it
(SecondPacketWaits).

## Model

| member | source | states |
|---|---|---|
| StreamTheorems.CreditConserved | src/base/cvd/adb/sockets.cpp:205-241 | after every run, in both directions of an open stream: credit + WRTE bytes in flight + receiver queue + acked bytes in flight == INITIAL_DELAYED_ACK_BYTES; FDE_READ armed implies a peer and positive credit; outstanding bytes stay below INITIAL + max payload |
| StreamTheorems.AcksStayPositive | src/base/cvd/adb/sockets.cpp:147-152 | after every run, in both directions, no OKAY in flight carries a count that the other side would read as a negative int32_t, and it carries one exactly in delayed-ack mode |
| StreamTheorems.StreamIsLossless | src/base/cvd/adb/sockets.cpp:122-268 | after every run, in both directions: what arrived is a prefix of what was read; until the receiver closes by its own decision, bytes read == bytes written ++ queue ++ WRTE payloads in flight; a freed socket has an empty queue or a write error; after an A_CLSE everything drains |
| StreamTheorems.NoLostWakeup | src/base/cvd/adb/sockets.cpp:146-172 | after every run, without a write error: a sender with FDE_READ off has a WRTE or an OKAY in flight, or the receiver holds bytes with FDE_WRITE armed (before the other end exists, the OPEN or its refusal) |
| StreamTheorems.ClosingListIsArmed | src/base/cvd/adb/sockets.cpp:374-379 | after every run, a socket on the closing list, at either end, has no peer, a nonempty queue, no write error and FDE_WRITE armed, so the CHECK at the end of local_socket_close holds |
| StreamTheorems.StuckMeansNoProgress | src/base/cvd/adb/sockets.cpp:382-416 | nothing is in flight and no FDE_WRITE is armed exactly if no delivery and no accepting write can happen |
| StreamTheorems.ProgressLightens | src/base/cvd/adb/sockets.cpp:122-173 | every delivery and every write that the fd does not refuse lightens a measure of what is under way |
| StreamTheorems.ProgressEnds | src/base/cvd/adb/sockets.cpp:122-173 | every schedule of deliveries and accepting writes ends, within that measure |
| StreamTheorems.StuckIsAtRest | src/base/cvd/adb/sockets.cpp:146-172 | when nothing is under way any more, both ends read their fds (write errors aside) or both are closed: the two ends never both wait |
| StreamSession.Opens | src/base/cvd/adb/adb.cpp:499-591 | in either mode, if both ends are in it and the service exists: after the OPEN, its delivery and the OKAY back, both sockets are live and linked to each other, read their fds with a credit of 32 MiB or none, and nothing is on the way |
| StreamSession.Refuses | src/base/cvd/adb/adb.cpp:499-551 | if the modes differ or there is no service: the opener's socket is freed, the other end makes none, and nothing is on the way |
| StreamSession.Transfers | src/base/cvd/adb/sockets.cpp:122-250 | for all data up to a payload and every way that the receiver's fd takes it, EAGAIN included: all of it gets there, and then the stream is as it was, with its full credit |
| StreamSession.Closes | src/base/cvd/adb/sockets.cpp:344-380 | closing one end of a quiet stream closes the other, and nothing stays on the way |
| StreamSession.Drains | src/base/cvd/adb/sockets.cpp:344-380 | what was read before an end of file is still written, in whatever portions, after both ends have closed; the receiver's socket lingers until then |
| StreamSession.Strays | src/base/cvd/adb/adb.cpp:553-624 | packets that do not name the socket and its peer, and an OPEN from nobody, change nothing; only an OKAY for a socket that is not there is answered, with a CLSE |
| StreamSession.ClosesUnnamed | src/base/cvd/adb/adb.cpp:593-615 | a CLSE with 0 for its sender closes an open socket, which answers it |
| StreamBacklog.QueueIsBoundedIff | src/base/cvd/adb/sockets.cpp:146-157 | without delayed acks, at either end, some bound holds for the queue in all runs exactly if the payloads of the other end are limited to one byte |
| StreamBacklog.QueueHasNoBound | src/base/cvd/adb/sockets.cpp:146-157 | without delayed acks, for every bound some run has that many OKAYs in flight to either end and some run that many bytes queued at its peer, for every payload limit of two bytes or more |
| StreamBacklog.PileUp | src/base/cvd/adb/sockets.cpp:149-157 | two bytes written one at a time bring in one OKAY more than they cost |
| StreamBacklog.Fill | src/base/cvd/adb/sockets.cpp:418-442 | each OKAY in flight lets two more bytes arrive while the receiver's fd takes none |
| StreamPreservation.RunInv | src/base/cvd/adb/sockets.cpp:122-442 | the invariant of both endpoints and both channels holds after every run |
| StreamPreservation.DeliverInv | src/base/cvd/adb/adb.cpp:499-624 | delivering an OPEN, OKAY, CLSE or WRTE in any reachable state keeps the invariant, whatever the fd accepts |
| StreamPreservation.OkayCore | src/base/cvd/adb/adb.cpp:553-591 | delivering an OKAY to a live socket or a stale one keeps the invariant on what both channels carry, with at most one packet in answer |
| StreamPreservation.OpenCore | src/base/cvd/adb/adb.cpp:499-551 | delivering an OPEN, accepted or refused, keeps the invariant on what both channels carry |
| StreamPreservation.ClseCore | src/base/cvd/adb/adb.cpp:593-615 | delivering a CLSE, obeyed or ignored, keeps the invariant on what both channels carry |
| StreamPreservation.WrteCore | src/base/cvd/adb/adb.cpp:617-624 | delivering a WRTE, queued or ignored, keeps the invariant on what both channels carry |
| StreamPreservation.ReadCore | src/base/cvd/adb/sockets.cpp:176-250 | a read of the fd, of any length up to a full payload, sends at most one packet and keeps the invariant on what both channels carry |
| StreamPreservation.FlushCore | src/base/cvd/adb/sockets.cpp:122-173 | a flush with any accepted byte count, EAGAIN or error sends at most one packet and keeps the invariant on what both channels carry |
| StreamPreservation.FlushEffect | src/base/cvd/adb/sockets.cpp:122-173 | a flush writes exactly the bytes that the fd accepted, which are those it takes off the queue and acknowledges |
| StreamPreservation.FinishCore | src/base/cvd/adb/sockets.cpp:344-380 | closing, by decision or on a CLSE, sends at most one packet and keeps the invariant on what both channels carry |
| LocalSocket.FlushTakes | src/base/cvd/adb/sockets.cpp:122-173 | a flush drops from the front of the queue exactly as many bytes as the fd accepted and writes those; it acknowledges their number, or without delayed acks that it wrote some and less than a megabyte is left; a closing socket stays only while its fd has to take more |
| LocalSocket.DrainReads | src/base/cvd/adb/sockets.cpp:176-203 | the loop of reads gives the bytes of all its reads in order, for any pieces; it sees an end of file only if it has room left when that comes |
| LocalSocket.AckAdds | src/base/cvd/adb/sockets.cpp:418-442 | an acknowledgement counts as an int32_t, wakes the socket exactly if that leaves credit, and is ignored if the socket's mode does not expect it |
| Bytes.AsUint32IsRemainder | src/base/cvd/adb/sockets.cpp:122-125 | a count kept in a uint32_t is its remainder modulo 2^32 |
| Bytes.AsInt32IsSigned | src/base/cvd/adb/adb.cpp:557-567 | and read as an int32_t, the number in that range that differs by a multiple of 2^32 |
| SocketGraph.Sockets.Close | src/base/cvd/adb/sockets.cpp:344-380 | closing either kind of socket closes its peer, frees exactly the remote sockets and the drained local ones, parks the others on the closing list, sends one CLSE for a local-remote pair, and keeps links symmetric and the lists disjoint |
| SocketGraph.Sockets.LocalSocketClose | src/base/cvd/adb/sockets.cpp:344-380 | the same for a local socket; the recursion between a pair ends |
| SocketGraph.Sockets.Retire | src/base/cvd/adb/sockets.cpp:365-379 | without a peer, a local socket is freed if it was closing, failed or drained, and otherwise moves to the closing list with FDE_WRITE armed |
| SocketGraph.Sockets.RemoteSocketClose | src/base/cvd/adb/sockets.cpp:516-541 | the same for a remote socket, whose peer is shut down and closed first |
| SocketGraph.Sockets.CloseAllSockets | src/base/cvd/adb/sockets.cpp:102-114 | ends, and takes exactly the sockets on the transport or peered with it off the socket list: the drained ones are freed, the others keep their bytes on the closing list, and no other socket changes its fields, its peer or its transport |
| SocketGraph.Sockets.FlushIncoming | src/base/cvd/adb/sockets.cpp:122-173 | does to a socket of the graph what the specification of the flush says, frees it if it was closing, and sends the acknowledgement that is due |
| SocketGraph.Sockets.FlushOutgoing | src/base/cvd/adb/sockets.cpp:176-250 | for any results of the reads: passes what the loop read to the peer, local or remote, before anything is closed; at end of file the close follows, and a local peer keeps what it was given |
| SocketGraph.Sockets.PassOn | src/base/cvd/adb/sockets.cpp:205-241 | spends the credit, hands the bytes to the peer and disarms FDE_READ when the peer is full and no credit is left |
| SocketGraph.Sockets.Enqueue | src/base/cvd/adb/sockets.cpp:252-268 | a local peer queues and flushes; a remote one sends a WRTE or refuses more than MAX_PAYLOAD |
| SocketGraph.Sockets.Ack | src/base/cvd/adb/sockets.cpp:418-442 | adds the acknowledged bytes and arms FDE_READ on positive credit, unless the two ends disagree on delayed acks |
| SocketGraph.Sockets.ConnectRemote | src/base/cvd/adb/sockets.cpp:544-558 | links a new remote socket to a socket without a peer, both ways |
| SocketGraph.Sockets.ReadFd | src/base/cvd/adb/sockets.cpp:176-203 | the loop of reads: what it has read, at most the room, and whether it saw the end of the file |
| SocketGraph.Sockets.PairEvents | src/base/cvd/adb/sockets.cpp:382-416 | any run of fd events of two linked local sockets is the run of LocalPair, and sends nothing to a transport |
| SocketGraph.Sockets.FlushToRemote | src/base/cvd/adb/sockets.cpp:176-250 | the same for a socket with a remote peer or none: what it sends, and what becomes of it |
| SocketGraph.Sockets.FindLocal | src/base/cvd/adb/sockets.cpp:61-78 | the socket with that id, if it matches the peer's id too |
| StreamSocket.End.Happens | src/base/cvd/adb/adb.cpp:499-624 | whatever comes in for a local socket with a remote peer, or happens to its fd, the socket becomes what Stream says, from its creation until it is freed, and hands exactly those packets to its transport |
| StreamSocket.DoesIsStep | src/base/cvd/adb/sockets.cpp:382-416 | that is the step of Stream in every state of a stream |
| StreamSocket.DeliveryCan | src/base/cvd/adb/adb.cpp:499-624 | in every reachable state the next packet can come in this way |
| StreamSystem.Turns | src/base/cvd/adb/adb.cpp:499-624 | two processes with a socket each and FIFO channels: any turns of theirs are a run of Stream, which the sockets show and whose channels hold what they have sent and the other has not got |
| StreamSystem.TurnsAreRun | src/base/cvd/adb/sockets.cpp:382-416 | turns of the two ends are a run |
| StreamSystem.RunsAreTurns | src/base/cvd/adb/adb.cpp:499-624 | every run of Stream from a reachable state is made by turns of the sockets, if its reads are ones that the loop can make |
| StreamSystem.OpenBoth | src/base/cvd/adb/adb.cpp:499-591 | in either mode, a dial, an OPEN and an OKAY leave both heap sockets on their lists, linked to remote sockets of each other's ids and reading with full credit, and have sent just those packets |
| StreamSystem.SocketsAtRest | src/base/cvd/adb/sockets.cpp:146-172 | when nothing is under way any more, both sockets are on their lists and read their fds (write errors aside), or neither is on a list |
| LocalPair.StaysOff | src/base/cvd/adb/sockets.cpp:146-157 | a socket of such a pair that has stopped reading never reads again |
| LocalPair.LosesWakeupIff | src/base/cvd/adb/sockets.cpp:146-157 | after a read that gave bytes, the socket never reads again in any run exactly if its peer still has bytes to write (and no credit is left) |
| LocalPair.DrainedButOff | src/base/cvd/adb/sockets.cpp:122-173 | when the peer has written the rest, neither end has an event armed that could move a byte |
| LocalPair.LosesWakeup | src/base/cvd/adb/sockets.cpp:122-250 | a run of two events in which this happens |
| Rope.Block.FillFrom | src/base/cvd/adb/types.h:95-101 | copies as much as fits and is left from the unread bytes, and advances both positions by it |
| Rope.Block.Assign | src/base/cvd/adb/types.h:57-64 | takes the buffer over; the position restarts at 0 and the source keeps its own |
| Rope.IOVector.Append | src/base/cvd/adb/types.h:207-214 | appends the block's bytes; an empty block is left alone |
| Rope.IOVector.Size | src/base/cvd/adb/types.h:194 | the number of bytes the rope stands for |
| Rope.IOVector.Coalesce | src/base/cvd/adb/types.h:247-264 | a block with exactly the rope's bytes |
| Rope.IOVector.DropFront | src/base/cvd/adb/types.cpp:41-63 | leaves what the loop with the wrapping counter leaves, or fails where that loop runs past the last block; in particular the bytes from `len` on, as long as the blocks dropped whole stay below 4 GiB |
| Rope.DropsExactlyIff | src/base/cvd/adb/types.cpp:51-62 | the loop with its unsigned int counter leaves exactly the bytes from `len` on if and only if the blocks it drops whole are below 4 GiB together |
| Rope.DropsTooMuch | src/base/cvd/adb/types.cpp:51-62 | a rope for which it does not |
| Rope.IOVector.TakeFront | src/base/cvd/adb/types.cpp:65-112 | returns the first `len` bytes and leaves the rest, on the move, copy and split paths |
| Rope.IOVector.TakeBlocks | src/base/cvd/adb/types.cpp:76-88 | moves the blocks that lie wholly in the first bytes, and the front offset with the first of them |
| Rope.IOVector.SplitFront | src/base/cvd/adb/types.cpp:90-110 | splits the front block by a copy or by a move of its buffer |
| Rope.TakeLoopCorrect | src/base/cvd/adb/types.cpp:76-88 | the loop of take_front takes a prefix and stops inside the front block |
| Rope.IOVector.PopFrontBlock | src/base/cvd/adb/types.cpp:138-146 | drops the front block of several and compacts the chain when due |
| Rope.IOVector.TrimFront | src/base/cvd/adb/types.cpp:114-129 | changes the representation, not the bytes; the branch for an exhausted front block is dead |
| Rope.IOVector.MoveFrom | src/base/cvd/adb/types.cpp:19-27 | moves the bytes over and leaves the source empty |
| Rope.IOVector.Clear | src/base/cvd/adb/types.cpp:29-39 | empties the rope and hands out its last block |
| Rope.IOVector.CoalesceAway | src/base/cvd/adb/types.cpp:148-191 | returns exactly the rope's bytes on each of its paths; the exhausted-front path is dead |
| Rope.IOVector.Iovecs | src/base/cvd/adb/types.cpp:193-201 | nonempty pieces that are together the rope's bytes |
| PacketReader.APacketReader.AddBytes | src/base/cvd/adb/apacket_reader.cpp:33-113 | appends the whole packets of pending bytes ++ block and keeps the rest pending, whatever the cut, with or without the zero-copy path; ERROR exactly on a header over MAX_PAYLOAD; the recursion ends |
| PacketReader.APacketReader.AddPayload | src/base/cvd/adb/apacket_reader.cpp:75-112 | the part of it behind a complete header |
| PacketReader.APacketReader.AddAll | src/base/cvd/adb/apacket_reader.cpp:33-113 | for any list of blocks, the result is that of parsing their concatenation: chunking makes no difference |
| PacketReader.APacketReader.GetPackets | src/base/cvd/adb/apacket_reader.cpp:115-120 | hands the packets out and keeps the pending bytes |
| PacketReader.ReadsSerialized | src/base/cvd/adb/apacket_reader.cpp:33-113 | of a serialization with anything behind it that is not a whole packet, the reader hands out exactly the packets; the rest waits, or is an error and dropped, exactly if it starts with a header for more than a megabyte |
| PacketReader.ParseIs | src/base/cvd/adb/apacket_reader.cpp:33-113 | what any packets and anything behind them that is not a whole packet parse to |
| PacketReader.DataLengthIsFourth | src/base/cvd/adb/types.h:148-155 | the six fields of an amessage take the 24 bytes of a header, and the length that the reader goes by is the fourth |
| LittleEndian.DecodesFour | src/base/cvd/adb/types.h:148-155 | four bytes, the least significant first, as a number |
| PacketReader.ParseSerialize | src/base/cvd/adb/apacket_reader.cpp:33-113 | parsing inverts serializing |
| PacketReader.UnparseParse | src/base/cvd/adb/apacket_reader.cpp:33-113 | serialized packets ++ rest == the bytes, and all packets are well formed |
| PacketReader.ParseAppend | src/base/cvd/adb/apacket_reader.cpp:33-113 | a stream may be parsed in pieces |
| PacketReader.ParseBad | src/base/cvd/adb/apacket_reader.cpp:51-56 | nothing behind a header that announces too much changes the packets |
| FdConnection.WritesAreInLockOrder | src/base/cvd/adb/transport_fd.cpp:177-218 | after every interleaving of Write, poll and POLLOUT steps with any partial writev: bytes sent ++ write_buffer_ == the packets serialized in lock order; writable_ off implies a nonempty buffer |
| FdConnection.DispatchTakes | src/base/cvd/adb/transport_fd.cpp:177-201 | a write that takes n bytes lengthens what was sent by exactly n, from the front of the buffer; it fails exactly if the fd does or takes nothing; writable_ afterwards says whether the buffer is empty |
| FdConnection.PollsForTheRest | src/base/cvd/adb/transport_fd.cpp:70-75 | until a write fails, the next poll asks for POLLOUT exactly if bytes wait |
| FdConnection.CheckFailsIff | src/base/cvd/adb/transport_fd.cpp:85-92 | the CHECK of DispatchWrites fails in a POLLOUT step exactly if the buffer has become empty since the poll; without failed writes, exactly if writable_ is on again |
| FdConnection.CheckCanFail | src/base/cvd/adb/transport_fd.cpp:177-178 | an interleaving in which it fails |
| FdConnection.PollOutIsOnce | src/base/cvd/adb/transport_fd.cpp:63-90 | POLLOUT is handled at most once for each poll |
| FdConnection.NonblockingFdConnection.DispatchWrites | src/base/cvd/adb/transport_fd.cpp:177-201 | the writing of a legal byte count, EAGAIN or an error on the rope, as the step function says |
| FdConnection.NonblockingFdConnection.Write | src/base/cvd/adb/transport_fd.cpp:203-218 | queues header and payload and dispatches; wakes the thread exactly if bytes are left and nothing failed |
| FdConnection.NonblockingFdConnection.OnPollOut | src/base/cvd/adb/transport_fd.cpp:85-92 | the POLLOUT branch is the step function's |
| FdConnection.NonblockingFdConnection.OnPollIn | src/base/cvd/adb/transport_fd.cpp:94-126 | the POLLIN branch, over the rope, is the step function's |
| FdConnection.ReadsConserve | src/base/cvd/adb/transport_fd.cpp:94-126 | after any reads: delivered packets ++ pending header ++ read_buffer_ == everything read, and no more packets than reads |
| FdConnection.DeliversInOrder | src/base/cvd/adb/transport_fd.cpp:94-126 | what is delivered of a stream of packets is a prefix of them, and all of them exactly if nothing is left over |
| FdConnection.DeliversFirst | src/base/cvd/adb/transport_fd.cpp:93-126 | a packet is handed on by the read that brings its last byte, and what is behind it stays |
| FdConnection.HoldsBack | src/base/cvd/adb/transport_fd.cpp:93-126 | as long as its header or its payload is not complete, nothing is handed on and nothing is lost |
| FdConnection.CutsAreUnique | src/base/cvd/adb/transport_fd.cpp:94-126 | a byte stream can be cut into packets in one way only |
| FdConnection.SecondPacketWaits | src/base/cvd/adb/transport_fd.cpp:108-125 | two packets in one read: only the first is delivered |
| PcTable.Table.Slot | src/tools/wsl/ika_dzn_fix.c:832-841 | finds the slot of a key in the table; for an absent key with add, the first slot on its way that holds no handle, unless every slot is taken, which keeps the key reachable |
| PcTable.Table.Put | src/tools/wsl/ika_dzn_fix.c:832-841 | refines a map update, and fails exactly if the key is absent and there are as many entries as slots |
| PcTable.Table.Find | src/tools/wsl/ika_dzn_fix.c:832-841 | refines map lookup |
| PcTable.Table.Remove | src/tools/wsl/ika_dzn_fix.c:843-848 | refines map removal: no other entry is disturbed |
| PcTable.Table.Fill | src/tools/wsl/ika_dzn_fix.c:874-878 | filling the slot that pc_slot gave is a map update |
| PcTable.KeysAreUnique | src/tools/wsl/ika_dzn_fix.c:832-841 | no key occurs twice |
| PcTable.FillKeeps | src/tools/wsl/ika_dzn_fix.c:832-841 | insertion keeps every key reachable from its home slot without an empty slot before it |
| PcTable.RemoveKeeps | src/tools/wsl/ika_dzn_fix.c:843-848 | so does a tombstone |
| PcTable.ProbeIsCyclic | src/tools/wsl/ika_dzn_fix.c:835 | the probe arithmetic visits the slots from the home slot on, cyclically |
| PcTable.SlotIs | src/tools/wsl/ika_dzn_fix.c:830-841 | a key that is not in the table goes to the slot of the first probe that finds no handle, so to the first tombstone if one comes before the empty slot |
| PcTable.CountHandles | src/tools/wsl/ika_dzn_fix.c:832-841 | the table is full exactly if there are as many keys as slots |
| AliasTable.Images.Add | src/tools/wsl/ika_dzn_fix.c:991-1002 | adds at the first free, removed or equal slot, and leaves the handle out of a full table |
| AliasTable.Images.Contains | src/tools/wsl/ika_dzn_fix.c:1014-1019 | membership |
| AliasTable.Images.Remove | src/tools/wsl/ika_dzn_fix.c:1021-1026 | removes one occurrence and disturbs no other handle |
| AliasTable.AddAdds | src/tools/wsl/ika_dzn_fix.c:991-1002 | adding always makes the handle a member next to those there were |
| AliasTable.AddIsCleanIff | src/tools/wsl/ika_dzn_fix.c:995-1000 | the table stays free of duplicates exactly if no tombstone lies before the handle, in particular if it was absent; either way its set of handles gains the handle |
| AliasTable.RemovalUndoesIff | src/tools/wsl/ika_dzn_fix.c:995-1026 | one removal, of whichever occurrence, takes the added handle away exactly under the same condition |
| AliasTable.AddsTwice | src/tools/wsl/ika_dzn_fix.c:991-1002 | a table in which it does store a handle twice |
| PushConstants.PushesSurviveLayouts | src/tools/wsl/ika_dzn_fix.c:953-982 | in every recording that pushes each byte for one set of stages: after every step, each pushed byte of the bound layouts' ranges has the value pushed last in the driver |
| PushRecording.CreatedLayoutsRead | src/tools/wsl/ika_dzn_fix.c:862-982 | for every layout that was created with one to four ranges that end within 256 bytes and is bound: in every recording that pushes each byte for one set of stages, the driver holds the values pushed last, read off the recording, in its ranges |
| PushConstants.StepAgreesIff | src/tools/wsl/ika_dzn_fix.c:953-982 | a step keeps that promise exactly if, at a change to a known layout, the shadow's byte is the one pushed last for the stages that see it |
| PushConstants.RunAgreesIff | src/tools/wsl/ika_dzn_fix.c:938-982 | a recording keeps it throughout exactly if every step meets that condition |
| PushRecording.RecordingAgreesIff | src/tools/wsl/ika_dzn_fix.c:938-982 | told from the recording alone: it keeps the promise exactly if, at every change to a known layout, the value pushed last to a byte for any stage is the one pushed last for the stage that reads it |
| PushRecording.FittingIgnoresBytes | src/tools/wsl/ika_dzn_fix.c:917-951 | if all pushes fit PC_BYTES, the bytes that a reused entry held make no difference to that |
| PushConstants.ComputePushSpoilsGraphics | src/tools/wsl/ika_dzn_fix.c:938-982 | a recording for which it fails: a push for compute alone |
| PushConstants.ReplayWrites | src/tools/wsl/ika_dzn_fix.c:978-981 | replaying gives exactly the bytes of the ranges the shadow's values |
| PushConstantLayer.Layer.CreatePipelineLayout | src/tools/wsl/ika_dzn_fix.c:862-881 | keeps a layout exactly if it has 1 to 4 ranges that end within 256 bytes and there is room for it |
| PushConstantLayer.Layer.AddPipelines | src/tools/wsl/ika_dzn_fix.c:850-860 | registers the created pipelines with their layouts, skipping null handles |
| PushConstantLayer.RegistersAll | src/tools/wsl/ika_dzn_fix.c:850-860 | with room for all of them and distinct handles, null handles aside, every created pipeline is found with its layout, and no other entry changes |
| PushConstantLayer.FullStays | src/tools/wsl/ika_dzn_fix.c:850-860 | a full table takes no new pipelines and loses none |
| PushConstantLayer.Layer.BeginCommandBuffer | src/tools/wsl/ika_dzn_fix.c:917-928 | starts the command buffer's entry over, in the slot that pc_slot gives and with the bytes that this slot held: its own, or a removed entry's |
| PushConstantLayer.Layer.FreeCommandBuffers | src/tools/wsl/ika_dzn_fix.c:930-936 | removes exactly the entries of the freed command buffers |
| PushConstantLayer.Layer.CmdPushConstants | src/tools/wsl/ika_dzn_fix.c:938-951 | records a push that fits PC_BYTES in the shadow |
| PushConstantLayer.Layer.CmdBindPipeline | src/tools/wsl/ika_dzn_fix.c:953-982 | records the layout and makes exactly the pushes of the replay |
| PNextChain.UnlinkStructs | src/tools/wsl/ika_dzn_fix.c:222-235 | leaves the chain without the first four structs of the type, and a list that undoes it |
| PNextChain.RestoreChain | src/tools/wsl/ika_dzn_fix.c:237-239 | each struct's pNext becomes what the first entry about it says |
| PNextChain.CallWithout | src/tools/wsl/ika_dzn_fix.c:294-298 | unlinking and restoring leaves every pNext as it was, for adjacent and repeated matches too |
| PNextChain.WithoutLeaves | src/tools/wsl/ika_dzn_fix.c:222-235 | the driver sees none of the structs, or those beyond the first MAX_UNLINKED |
| PNextChain.WithoutIs | src/tools/wsl/ika_dzn_fix.c:222-235 | up to some struct all of the type are gone and all others stay in order; behind it nothing changes |
| Listeners.ListenerList.InstallListener | src/base/cvd/adb/adb_listeners.cpp:190-258 | each outcome of an installation and what it changes; registration stays exact, names distinct, smart sockets untouched; a null transport is dereferenced exactly when a smart installation meets a forward of that name |
| Listeners.InstallDereferencesNull | src/base/cvd/adb/adb_listeners.cpp:199-214 | two installations from the empty list of which the second dereferences a null transport |
| Listeners.ListenerList.Rebind | src/base/cvd/adb/adb_listeners.cpp:199-214 | moves the listener's registration to the new transport |
| Listeners.ListenerList.Create | src/base/cvd/adb/adb_listeners.cpp:217-257 | adds a registered listener under a new name |
| Listeners.ListenerList.Erase | src/base/cvd/adb/adb_listeners.cpp:64-71 | the destructor deregisters the listener and no other |
| Listeners.ListenerList.RemoveListener | src/base/cvd/adb/adb_listeners.cpp:146-156 | removes exactly the listener of that name |
| Listeners.KeepIs | src/base/cvd/adb/adb_listeners.cpp:146-169 | what an erasure leaves of a list: element by element, those that are not erased, in order |
| Listeners.ListenerList.RemoveAllListeners | src/base/cvd/adb/adb_listeners.cpp:158-169 | keeps exactly the smart sockets, in order |
| Listeners.ListenerList.ListenerDisconnect | src/base/cvd/adb/adb_listeners.cpp:117-126 | erases the listener without deregistering it |
| Listeners.ListenerList.RunDisconnects | src/base/cvd/adb/transport.cpp:1288-1293 | ends with no entries and no listener on the transport; all others stay, in order and registered |
| Listeners.ListenerList.constructor | src/base/cvd/adb/adb_listeners.cpp:73-80 | the empty list, with every registration exact |
| SparseWriter.FastBootDriver.SparseWriteCallback | src/base/cvd/fastboot/fastboot_driver.cpp:598-629 | sent bytes ++ tpbuf == all input, tpbuf holds what is over whole chunks of 1024, every send is a nonzero multiple of them; it fails only if the transport did not take a buffer whole, and then all that it took is still a prefix |
| SparseWriter.FastBootDriver.DownloadSparse | src/base/cvd/fastboot/fastboot_driver.cpp:260-298 | succeeds exactly if the transport took every buffer whole; what it took is always a prefix of the input, and on success the sends are exactly the input, all but the last of them whole chunks |
| SparseWriter.FastBootDriver.SendFile | src/base/cvd/fastboot/fastboot_driver.cpp:532-556 | in pieces of 512 MiB and a last one, sends the file exactly if its size fits the uint32_t; fails exactly if the transport did not take a piece whole |
| TcpSocket.Socket.Send | src/base/cvd/fastboot/socket.cpp:202-234 | emits exactly the concatenation of the buffers, for any partial sends, or a prefix of it and an error, which it returns only if a call of the kernel has failed |
| TcpSocket.SendEndsIff | src/base/cvd/fastboot/socket.cpp:202-234 | for every schedule of sends with progress, the loop ends exactly if the last buffer is nonempty |
| TcpSocket.NeverEnds | src/base/cvd/fastboot/socket.cpp:202-234 | with an empty last buffer it never ends |
| TcpSocket.AdjustKeeps | src/base/cvd/fastboot/socket.cpp:213-231 | the adjustment drops exactly the bytes sent |
| TcpSocket.Socket.SendData | src/base/cvd/fastboot/socket.cpp:188-200 | the single-buffer form sends the front of the buffer again after a partial send |
| TcpSocket.SingleSendIff | src/base/cvd/fastboot/socket.cpp:188-200 | for all data of a length it emits the data exactly if the kernel takes it in one call |
| TcpSocket.Socket.ReceiveAll | src/base/cvd/fastboot/socket.cpp:55-73 | the bytes in order, all of them unless the stream ends or breaks; -1 if there are none |
| TcpTransport.EncodeMessageLength | src/base/cvd/fastboot/tcp.cpp:50-54 | the 8 big-endian digits of the length |
| TcpTransport.ExtractMessageLength | src/base/cvd/fastboot/tcp.cpp:41-47 | the number they stand for |
| TcpTransport.ValueOfDigits | src/base/cvd/fastboot/tcp.cpp:41-54 | reading a written length back gives it, exactly if it fits 64 bits |
| TcpTransport.DigitsOfValue | src/base/cvd/fastboot/tcp.cpp:41-54 | every header is the encoding of the length read from it |
| TcpTransport.DigitAt | src/base/cvd/fastboot/tcp.cpp:50-54 | the i-th byte of the length is the length shifted by eight bits for each byte behind it |
| TcpTransport.FrameIs | src/base/cvd/fastboot/tcp.cpp:156-170 | a frame is eight bytes that stand for the length, if that fits 64 bits, and the message |
| TcpTransport.TcpTransport.Read | src/base/cvd/fastboot/tcp.cpp:128-154 | returns the next bytes of one message, never across its end; all that was asked for or is left unless the connection breaks |
| TcpTransport.TcpTransport.ReadMany | src/base/cvd/fastboot/tcp.cpp:128-154 | reads of any sizes return the messages' bytes in order, without a gap; what was read before a failure is a prefix of them |
| TcpTransport.TcpTransport.Write | src/base/cvd/fastboot/tcp.cpp:156-170 | sends the frame of the message; fails only without a socket or after an error of the kernel |
| TcpTransport.EmptyWriteNeverEnds | src/base/cvd/fastboot/tcp.cpp:156-170 | a write of an empty message never ends |
| ShellProtocol.ShellProtocol.Read | src/base/cvd/adb/shell_service_protocol.cpp:32-54 | each successful read returns the next piece of the packets, with its packet's id |
| ShellProtocol.ShellProtocol.ReadAll | src/base/cvd/adb/shell_service_protocol.cpp:32-54 | reads over a stream of any packets return exactly their pieces, each with its id, until an error of the fd |
| ShellProtocol.PiecesArePayload | src/base/cvd/adb/shell_service_protocol.cpp:32-54 | the pieces are the payload, all but the last of them as long as the capacity, and max(1, ceil(length / capacity)) of them |
| ShellProtocol.ExpectedIs | src/base/cvd/adb/shell_service_protocol.cpp:32-54 | the reads of several packets are those of each in turn, and each read of a packet returns its id |
| ShellProtocol.ShellProtocol.Write | src/base/cvd/adb/shell_service_protocol.cpp:56-62 | writes the packet that a reader expects, or a part of it after an error of the fd |
| ShellProtocol.SerializesAs | src/base/cvd/adb/shell_service_protocol.cpp:56-62 | a packet is its id, four bytes for the length and the payload |
| LittleEndian.RoundTrips | src/base/cvd/adb/shell_service_protocol.cpp:56-62 | the length field holds the length modulo 2^32 |
| ShellProtocol.Fd.ReadExactly | src/base/cvd/adb/adb_io.cpp:76-101 | all the bytes asked for, in order, or false if they end or an error comes first |
| HostService.LosesNothing | src/base/cvd/adb/sockets.cpp:662-780 | on success serial ++ ":" ++ command is the input and the command is nonempty |
| HostService.ParsesIff | src/base/cvd/adb/sockets.cpp:662-780 | a serial and a command are read as such exactly if they have one of three forms: prefix and name; address before a command that does not start like a port; address and numeric port |
| HostService.ParseHostService | src/base/cvd/adb/sockets.cpp:662-780 | the parser over the two views computes what all these are about, and its CHECKs hold on every path |
| HostService.OutOfBoundsIff | src/base/cvd/adb/sockets.cpp:715-733 | the empty view is indexed exactly for "vsock:", "tcp:vsock:" and "udp:vsock:" |
| HostService.ParsesPort | src/base/cvd/adb/sockets.cpp:712-779 | (address:port, command) for every well-formed host, [ipv6], vsock and a bracket that nothing closes included, numeric port and command |
| HostService.ParsesNoPortIff | src/base/cvd/adb/sockets.cpp:712-779 | (address, command) without a port exactly if the command does not start like one |
| HostService.DigitsAre | src/base/cvd/adb/sockets.cpp:766-774 | a port is numeric exactly if all its characters are decimal digits |
| HostService.ParsesPrefix | src/base/cvd/adb/sockets.cpp:698-710 | (prefix:name, command) for the five prefixes |
| PageRounding.RoundsUpIff | src/base/cvd/fastboot/bootimg_utils.cpp:97-103 | the mask form rounds every size up to whole pages exactly if the page size is a power of two |
| PageRounding.SectionsAreApart | src/base/cvd/fastboot/bootimg_utils.cpp:105-107 | for every page size, a rounded section has room for its bytes and ends before the next one starts |
| PageRounding.EndIsAligned | src/base/cvd/fastboot/bootimg_utils.cpp:105-107 | for a power of two, every section starts and ends on whole pages |
| BootImage.Mkbootimg | src/base/cvd/fastboot/bootimg_utils.cpp:79-130 | for every page size: the image is zeros with the header and the sections copied to `page_size` and behind it, and exists exactly if no copy goes past its end |
| BootImage.MkbootimgV3 | src/base/cvd/fastboot/bootimg_utils.cpp:50-77 | the same with 4096 for header versions from 3 on, which die on a second stage or a dtb |
| BootImage.SectionIsWhole | src/base/cvd/fastboot/bootimg_utils.cpp:124-130 | whatever the header, each section is whole at its offset |
| BootImage.OutsideSections | src/base/cvd/fastboot/bootimg_utils.cpp:105-130 | all other bytes are the header's, or zero |
| BootImage.FitsIff | src/base/cvd/fastboot/bootimg_utils.cpp:105-130 | for a power of two, nothing is copied past the end of the image exactly if the header is no longer than it |
| BootImage.KernelPastTheEnd | src/base/cvd/fastboot/bootimg_utils.cpp:97-124 | a page size for which a kernel of one byte is copied past the end |
| BootImage.PagesHoldAll | src/base/cvd/fastboot/bootimg_utils.cpp:97-130 | a power of two that holds the header: the image is its pages, every copy stays inside, no section touches the header |
| BootImage.V3HoldsAll | src/base/cvd/fastboot/bootimg_utils.cpp:50-77 | the page of 4096 does so for headers that fit it |
| BootImage.OffsetIsAligned | src/base/cvd/fastboot/bootimg_utils.cpp:124-130 | for a power of two, every section is copied to the start of a page |
| BootImage.HeaderIntactIff | src/base/cvd/fastboot/bootimg_utils.cpp:110-130 | the header survives exactly if each section byte copied into it equals the header byte there |
| BootImage.MkbootimgHeaderIff | src/base/cvd/fastboot/bootimg_utils.cpp:110-130 | for all bytes of given sizes, exactly if no section with bytes starts before the header's end |
| BootImage.KernelOverwritesHeader | src/base/cvd/fastboot/bootimg_utils.cpp:124 | an image in which it does not |
| BootImage.LoaderFindsIff | src/base/cvd/fastboot/bootimg_utils.cpp:113-130 | a loader that works out the offsets from the header's uint32_t sizes finds a section, whatever the bytes, exactly if the section is empty or it and all before it are below 4 GiB |
| BootImage.LoaderFindsAllIff | src/base/cvd/fastboot/bootimg_utils.cpp:113-130 | it finds all sections of an image exactly if each of them is below 4 GiB |
| BootImage.BigKernelHidesRamdisk | src/base/cvd/fastboot/bootimg_utils.cpp:113-126 | an image in which a kernel of 4 GiB hides a small ramdisk |

## Left out

- CoalesceAway: leaves the rope itself unspecified, as the source only promises "some valid state".
- Send: requires a nonempty last buffer, because a method must return and for other lists the source never does (NeverEnds).
- Write: of TcpTransport requires a nonempty message, for the same reason (EmptyWriteNeverEnds); of ShellProtocol requires that the payload fits the buffer that it lies in.
- InstallListener: takes the result of socket_spec_listen as a parameter, and assumes that the operating system never chooses a port that a listener holds, and that a forward has a transport and a target that does not start with "*", as all callers see to.
- Block: the bytes of a block are a field of sequence type, not a separate array, so that two blocks over one buffer cannot be expressed; the source's buffers are owned by one block too.
- Byte-level layout: a header is the 24 bytes of an amessage, of which the reader looks at data_length alone; boot image headers are opaque bytes, since bootimg.h is not part of this model.
- The loop of reads in Stream: its events carry what the loop gave; the loop itself is SocketGraph.Sockets.ReadFd.
- Several streams in one state machine, and the reuse of socket ids: StreamSystem follows one stream of two processes; SocketGraph follows all sockets of one process, without the channels.
- Pairs of local sockets: closing one of them in the middle of a run of LocalPair (SocketGraph follows the close itself), and the smart sockets that link them.
- Smart sockets, exit_on_close, deferred_close, fdevents that fire after a close, and transports that go offline in the middle of a stream.
- The integer overflow of offset + size in vkCmdPushConstants and vkCreatePipelineLayout, which Vulkan's valid usage excludes, pipelines that the full table lost, and layout handles that the driver hands out again while they are bound.
- Threads: the lock-protected sections of transport_fd.cpp and adb_listeners.cpp are atomic steps.
- Authentication, TLS, USB, mDNS, device trackers, logging, compression, sparse file reading, and the layer's tracing and feature patching.
