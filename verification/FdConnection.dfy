/** NonblockingFdConnection of adb/transport_fd.cpp: buffered writes by several threads under one lock, and a reader
    that frames packets. First what the two sides do, on values; then the class, proved against it. */
module FdConnection {
  import opened Bytes
  import opened Rope
  import opened PacketReader

  /** What writev made of the buffer: EAGAIN, another error, or a number of bytes. */
  datatype WriteRc = WouldBlock | Failed | Wrote(n: nat)

  /** The most that one writev transfers. */
  const MAX_TRANSFER: nat := 0x7fff_f000

  predicate LegalRc(rc: WriteRc, buffer: seq<byte>) {
    rc.Wrote? ==> rc.n <= |buffer| && rc.n <= MAX_TRANSFER
  }

  /** The write side. `pollOut` says that Run polls for POLLOUT, `sent` and `queued` are the whole history, and
      `aborted` is the failure of the CHECK that there is something to write. */
  datatype WriteSide = WriteSide(buffer: seq<byte>, writable: bool, pollOut: bool, aborted: bool,
                                 sent: seq<byte>, queued: seq<Packet>, failed: bool)

  datatype WriteResult = Error | Completed | TryAgain

  const IDLE := WriteSide([], true, false, false, [], [], false)

  function Queue(s: WriteSide, p: Packet): WriteSide {
    s.(buffer := s.buffer + p.header + p.payload, queued := s.queued + [p])
  }

  /** DispatchWrites. */
  function Dispatch(s: WriteSide, rc: WriteRc): WriteSide
    requires LegalRc(rc, s.buffer)
  {
    if s.buffer == [] then s.(aborted := true)
    else match rc
      case WouldBlock => s.(writable := false)
      case Failed => s.(failed := true)
      case Wrote(n) =>
        if n == 0 then s.(failed := true)
        else s.(buffer := s.buffer[n..], sent := s.sent + s.buffer[..n], writable := n == |s.buffer|)
  }

  /** What a call means: the bytes that the fd takes go out, from the front of the buffer, and nothing else changes it;
      it fails exactly if the fd does, or takes nothing. */
  lemma DispatchTakes(s: WriteSide, rc: WriteRc)
    requires s.buffer != [] && (rc.Wrote? ==> rc.n <= |s.buffer| && rc.n <= 0x7fff_f000)
    ensures var t := Dispatch(s, rc);
      && |t.sent| == |s.sent| + (if rc.Wrote? then rc.n else 0)
      && t.sent + t.buffer == s.sent + s.buffer && s.sent <= t.sent
      && (t.failed <==> s.failed || rc == Failed || rc == Wrote(0))
      && (t.writable <==> if t.sent == s.sent then s.writable && rc != WouldBlock else t.buffer == [])
      && t.queued == s.queued && t.pollOut == s.pollOut && t.aborted == s.aborted
  {
    if rc.Wrote? {
      assert s.sent + s.buffer[..rc.n] + s.buffer[rc.n..] == s.sent + s.buffer;
    }
  }

  /** The steps that hold write_mutex_: Write, the look at writable_ before poll, and the branch for POLLOUT. */
  datatype WriteEvent = Write(packet: Packet, rc: WriteRc) | Poll | PollOut(rc: WriteRc)

  predicate Framed(p: Packet) {
    |p.header| == HEADER_SIZE && |p.payload| == DataLength(p.header)
  }

  predicate Enabled(s: WriteSide, e: WriteEvent) {
    && !s.aborted
    && match e
       case Write(p, rc) => |p.header| == HEADER_SIZE && LegalRc(rc, Queue(s, p).buffer)
       case Poll => true
       case PollOut(rc) => s.pollOut && LegalRc(rc, s.buffer)
  }

  function Step(s: WriteSide, e: WriteEvent): WriteSide
    requires Enabled(s, e)
  {
    match e
    case Write(p, rc) => Dispatch(Queue(s, p), rc)
    case Poll => s.(pollOut := !s.writable)
    case PollOut(rc) => Dispatch(s, rc).(pollOut := false)
  }

  predicate IsRun(s: WriteSide, events: seq<WriteEvent>)
    decreases |events|
  {
    events == [] || (Enabled(s, events[0]) && IsRun(Step(s, events[0]), events[1..]))
  }

  function After(s: WriteSide, events: seq<WriteEvent>): WriteSide
    requires IsRun(s, events)
    decreases |events|
  {
    if events == [] then s else After(Step(s, events[0]), events[1..])
  }

  /** What every write step keeps: the bytes sent and the buffer are the serialized packets in lock order, and
      writable_ is off only if something waits in the buffer, and off whenever it does unless a write failed. */
  predicate WriteInv(s: WriteSide) {
    && s.sent + s.buffer == Serialize(s.queued)
    && (!s.writable ==> s.buffer != [])
    && (s.writable && !s.failed ==> s.buffer == [])
  }

  lemma {:induction false} SerializeAppend(a: seq<Packet>, b: seq<Packet>)
    ensures Serialize(a + b) == Serialize(a) + Serialize(b)
  {
    if a == [] {
      assert a + b == b;
    } else {
      SerializeAppend(a[1..], b);
      assert (a + b)[0] == a[0] && (a + b)[1..] == a[1..] + b;
      ConcatAssociates(a[0].header + a[0].payload, Serialize(a[1..]), Serialize(b));
    }
  }

  lemma SerializeSnoc(a: seq<Packet>, p: Packet)
    ensures Serialize(a + [p]) == Serialize(a) + p.header + p.payload
  {
    SerializeAppend(a, [p]);
    assert Serialize([p]) == p.header + p.payload + Serialize([]);
    ConcatAssociates(Serialize(a), p.header, p.payload);
  }

  lemma QueueKeeps(s: WriteSide, p: Packet)
    requires s.sent + s.buffer == Serialize(s.queued)
    ensures Queue(s, p).sent + Queue(s, p).buffer == Serialize(Queue(s, p).queued)
  {
    SerializeSnoc(s.queued, p);
    ConcatAssociates(s.sent, s.buffer, p.header);
    ConcatAssociates(s.sent, s.buffer + p.header, p.payload);
  }

  lemma DispatchKeeps(s: WriteSide, rc: WriteRc)
    requires LegalRc(rc, s.buffer) && s.sent + s.buffer == Serialize(s.queued) && (!s.writable ==> s.buffer != [])
    ensures WriteInv(Dispatch(s, rc))
  {
    if rc.Wrote? {
      assert s.sent + s.buffer[..rc.n] + s.buffer[rc.n..] == s.sent + s.buffer;
    }
  }

  lemma StepKeeps(s: WriteSide, e: WriteEvent)
    requires WriteInv(s) && Enabled(s, e)
    ensures WriteInv(Step(s, e))
  {
    if e.Write? {
      QueueKeeps(s, e.packet);
      DispatchKeeps(Queue(s, e.packet), e.rc);
    } else if e.PollOut? {
      DispatchKeeps(s, e.rc);
    }
  }

  lemma {:induction false} RunKeeps(s: WriteSide, events: seq<WriteEvent>)
    requires WriteInv(s) && IsRun(s, events)
    ensures WriteInv(After(s, events))
    decreases |events|
  {
    if events != [] {
      StepKeeps(s, events[0]);
      RunKeeps(Step(s, events[0]), events[1..]);
    }
  }

  /** Every run: nothing is lost, repeated or reordered by partial writes of any size. */
  lemma WritesAreInLockOrder(events: seq<WriteEvent>)
    requires IsRun(IDLE, events)
    ensures var s := After(IDLE, events); s.sent + s.buffer == Serialize(s.queued)
    ensures var s := After(IDLE, events); !s.writable ==> s.buffer != []
  {
    RunKeeps(IDLE, events);
  }

  lemma {:induction false} RunSplit(s: WriteSide, events: seq<WriteEvent>, e: WriteEvent)
    requires IsRun(s, events + [e])
    ensures IsRun(s, events) && Enabled(After(s, events), e)
    ensures After(s, events + [e]) == Step(After(s, events), e)
    decreases |events|
  {
    if events == [] {
      assert [e][1..] == [];
    } else {
      assert (events + [e])[1..] == events[1..] + [e];
      RunSplit(Step(s, events[0]), events[1..], e);
    }
  }

  /** Bytes that wait are never forgotten: until a write fails, the next poll asks for POLLOUT exactly if some do. */
  lemma PollsForTheRest(events: seq<WriteEvent>)
    requires IsRun(IDLE, events + [Poll]) && !After(IDLE, events + [Poll]).failed
    ensures var s := After(IDLE, events + [Poll]); s.pollOut <==> s.buffer != []
  {
    RunSplit(IDLE, events, Poll);
    RunKeeps(IDLE, events);
  }

  /** The CHECK fails exactly when the buffer has become empty since poll; while no write has failed, exactly when
      writable_ is on again. */
  lemma CheckFailsIff(events: seq<WriteEvent>, rc: WriteRc)
    requires IsRun(IDLE, events + [PollOut(rc)])
    ensures var s := After(IDLE, events + [PollOut(rc)]);
      IsRun(IDLE, events) &&
      (s.aborted <==> After(IDLE, events).buffer == []) &&
      (!After(IDLE, events).failed ==> (s.aborted <==> After(IDLE, events).writable))
  {
    RunSplit(IDLE, events, PollOut(rc));
    RunKeeps(IDLE, events);
  }

  /** POLLOUT is handled once for each time that it was asked for. */
  lemma PollOutIsOnce(events: seq<WriteEvent>, rc: WriteRc, rc': WriteRc)
    requires IsRun(IDLE, events + [PollOut(rc)])
    ensures !Enabled(After(IDLE, events + [PollOut(rc)]), PollOut(rc'))
  {
    RunSplit(IDLE, events, PollOut(rc));
  }

  lemma RunCons(s: WriteSide, e: WriteEvent, rest: seq<WriteEvent>)
    requires Enabled(s, e) && IsRun(Step(s, e), rest)
    ensures IsRun(s, [e] + rest) && After(s, [e] + rest) == After(Step(s, e), rest)
  {
    assert ([e] + rest)[1..] == rest;
  }

  /** And that can happen: a Write that blocks, a poll, and a Write that empties the buffer before the lock is taken. */
  lemma CheckCanFail(p: Packet, q: Packet)
    requires WellFormed(p) && WellFormed(q)
    ensures var all := Wrote(|p.header + p.payload + q.header + q.payload|);
      var events := [Write(p, WouldBlock), Poll, Write(q, all), PollOut(WouldBlock)];
      IsRun(IDLE, events) && After(IDLE, events).aborted
  {
    var both := p.header + p.payload + q.header + q.payload;
    var s1 := Step(IDLE, Write(p, WouldBlock));
    assert s1.buffer == p.header + p.payload;
    var s2 := Step(s1, Poll);
    var s3 := Step(s2, Write(q, Wrote(|both|)));
    RunCons(s3, PollOut(WouldBlock), []);
    RunCons(s2, Write(q, Wrote(|both|)), [PollOut(WouldBlock)]);
    RunCons(s1, Poll, [Write(q, Wrote(|both|)), PollOut(WouldBlock)]);
    RunCons(IDLE, Write(p, WouldBlock), [Poll, Write(q, Wrote(|both|)), PollOut(WouldBlock)]);
  }

  /** The read side: read_buffer_, read_header_, what was handed on and all that was read. */
  datatype ReadSide = ReadSide(buffer: seq<byte>, header: Option<seq<byte>>, delivered: seq<Packet>, taken: seq<byte>)

  const SILENT := ReadSide([], None, [], [])

  predicate HeaderFits(s: ReadSide) {
    s.header.Some? ==> |s.header.value| == HEADER_SIZE
  }

  function Receive(s: ReadSide, bytes: seq<byte>): ReadSide {
    s.(buffer := s.buffer + bytes, taken := s.taken + bytes)
  }

  function TakeHeader(s: ReadSide): (t: ReadSide)
    requires HeaderFits(s)
    ensures HeaderFits(t)
  {
    if s.header == None && |s.buffer| >= HEADER_SIZE then
      s.(header := Some(s.buffer[..HEADER_SIZE]), buffer := s.buffer[HEADER_SIZE..])
    else s
  }

  function TakePacket(s: ReadSide): (t: ReadSide)
    requires HeaderFits(s)
    ensures HeaderFits(t)
  {
    if s.header.Some? && |s.buffer| >= DataLength(s.header.value) then
      var n := DataLength(s.header.value);
      s.(header := None, buffer := s.buffer[n..], delivered := s.delivered + [Packet(s.header.value, s.buffer[..n])])
    else s
  }

  /** The branch for POLLIN, for the bytes that one read returned. */
  function OnRead(s: ReadSide, bytes: seq<byte>): ReadSide
    requires HeaderFits(s)
  {
    TakePacket(TakeHeader(Receive(s, bytes)))
  }

  function AfterReads(s: ReadSide, chunks: seq<seq<byte>>): (t: ReadSide)
    requires HeaderFits(s)
    ensures HeaderFits(t)
    decreases |chunks|
  {
    if chunks == [] then s else AfterReads(OnRead(s, chunks[0]), chunks[1..])
  }

  /** The bytes read but not delivered: the pending header, then the buffer. */
  function Undelivered(s: ReadSide): seq<byte> {
    match s.header
    case None => s.buffer
    case Some(h) => h + s.buffer
  }

  predicate ReadInv(s: ReadSide) {
    && HeaderFits(s)
    && Serialize(s.delivered) + Undelivered(s) == s.taken
    && (forall i | 0 <= i < |s.delivered| :: Framed(s.delivered[i]))
  }

  lemma TakePacketKeeps(s: ReadSide)
    requires ReadInv(s)
    ensures ReadInv(TakePacket(s))
  {
    if s.header.Some? && |s.buffer| >= DataLength(s.header.value) {
      var n := DataLength(s.header.value);
      var p := Packet(s.header.value, s.buffer[..n]);
      SerializeSnoc(s.delivered, p);
      assert p.payload + s.buffer[n..] == s.buffer;
      ConcatAssociates(Serialize(s.delivered), p.header, s.buffer);
      ConcatAssociates(Serialize(s.delivered) + p.header, p.payload, s.buffer[n..]);
    }
  }

  lemma OnReadKeeps(s: ReadSide, bytes: seq<byte>)
    requires ReadInv(s)
    ensures ReadInv(OnRead(s, bytes))
    ensures OnRead(s, bytes).taken == s.taken + bytes
    ensures |OnRead(s, bytes).delivered| <= |s.delivered| + 1
  {
    var t := Receive(s, bytes);
    assert Serialize(t.delivered) + Undelivered(t) == t.taken by {
      assert Undelivered(t) == Undelivered(s) + bytes;
      ConcatAssociates(Serialize(s.delivered), Undelivered(s), bytes);
    }
    TakePacketKeeps(TakeHeader(t));
  }

  /** Every run of reads: delivered packets, pending header and buffer are together exactly what was read, and one
      read delivers at most one packet. */
  lemma {:induction false} ReadsConserve(s: ReadSide, chunks: seq<seq<byte>>)
    requires ReadInv(s)
    ensures ReadInv(AfterReads(s, chunks))
    ensures AfterReads(s, chunks).taken == s.taken + Flatten(chunks)
    ensures |AfterReads(s, chunks).delivered| <= |s.delivered| + |chunks|
    decreases |chunks|
  {
    if chunks != [] {
      OnReadKeeps(s, chunks[0]);
      ReadsConserve(OnRead(s, chunks[0]), chunks[1..]);
      ConcatAssociates(s.taken, chunks[0], Flatten(chunks[1..]));
    }
  }

  /** One read hands out a packet as soon as all its bytes have come, and keeps what is behind it. */
  lemma DeliversFirst(s: ReadSide, bytes: seq<byte>, p: Packet, more: seq<byte>)
    requires HeaderFits(s) && |p.header| == 24 && |p.payload| == DataLength(p.header)
    requires Undelivered(s) + bytes == p.header + p.payload + more
    ensures OnRead(s, bytes) == ReadSide(more, None, s.delivered + [p], s.taken + bytes)
  {
    var t := Receive(s, bytes);
    var all := p.header + (p.payload + more);
    assert Undelivered(t) == Undelivered(s) + bytes == all;
    assert all[..HEADER_SIZE] == p.header && all[HEADER_SIZE..] == p.payload + more;
    assert TakeHeader(t) == ReadSide(p.payload + more, Some(p.header), s.delivered, s.taken + bytes) by {
      if s.header.Some? {
        assert t.buffer == (s.header.value + t.buffer)[HEADER_SIZE..];
        assert s.header.value == (s.header.value + t.buffer)[..HEADER_SIZE];
      }
    }
    assert (p.payload + more)[..|p.payload|] == p.payload && (p.payload + more)[|p.payload|..] == more;
  }

  /** Until then, nothing is handed out and nothing is lost. */
  lemma HoldsBack(s: ReadSide, bytes: seq<byte>)
    requires HeaderFits(s)
    requires var all := Undelivered(s) + bytes; |all| < 24 || |all| < 24 + DataLength(all[..24])
    ensures OnRead(s, bytes).delivered == s.delivered && Undelivered(OnRead(s, bytes)) == Undelivered(s) + bytes
  {
    var t := Receive(s, bytes);
    var all := Undelivered(s) + bytes;
    assert Undelivered(t) == all;
    var h := TakeHeader(t);
    assert Undelivered(h) == all;
    if h.header.Some? {
      assert all[..24] == h.header.value;
    }
  }

  lemma SameHead(p: Packet, more: seq<byte>, q: Packet, more': seq<byte>)
    requires Framed(p) && Framed(q) && p.header + p.payload + more == q.header + q.payload + more'
    ensures p == q && more == more'
  {
    var all := p.header + p.payload + more;
    assert p.header == all[..HEADER_SIZE] == q.header;
    assert p.payload == all[HEADER_SIZE..][..|p.payload|] == q.payload;
    assert more == all[HEADER_SIZE + |p.payload|..] == more';
  }

  /** There is only one way to cut a stream into packets. */
  lemma {:induction false} CutsAreUnique(a: seq<Packet>, left: seq<byte>, b: seq<Packet>)
    requires forall i | 0 <= i < |a| :: Framed(a[i])
    requires forall i | 0 <= i < |b| :: Framed(b[i])
    requires Serialize(a) + left == Serialize(b)
    ensures a <= b && left == Serialize(b[|a|..])
    decreases |a|
  {
    if a == [] {
      assert b[0..] == b;
    } else {
      ConcatAssociates(a[0].header + a[0].payload, Serialize(a[1..]), left);
      SameHead(a[0], Serialize(a[1..]) + left, b[0], Serialize(b[1..]));
      CutsAreUnique(a[1..], left, b[1..]);
      assert a == [a[0]] + a[1..] && b == [b[0]] + b[1..];
      assert b[1..][|a| - 1..] == b[|a|..];
    }
  }

  /** Whatever the reads, what is delivered of a stream of packets is a prefix of them; it is all of them exactly if
      nothing is left over. */
  lemma DeliversInOrder(ps: seq<Packet>, chunks: seq<seq<byte>>, unread: seq<byte>)
    requires forall i | 0 <= i < |ps| :: Framed(ps[i])
    requires Flatten(chunks) + unread == Serialize(ps)
    ensures var s := AfterReads(SILENT, chunks);
      s.delivered <= ps && (s.delivered == ps <==> Undelivered(s) + unread == [])
  {
    ReadsConserve(SILENT, chunks);
    var s := AfterReads(SILENT, chunks);
    assert [] + Flatten(chunks) == Flatten(chunks);
    ConcatAssociates(Serialize(s.delivered), Undelivered(s), unread);
    CutsAreUnique(s.delivered, Undelivered(s) + unread, ps);
    if s.delivered != ps {
      assert Serialize(ps[|s.delivered|..]) != [];
    }
  }

  lemma TwoPackets(p: Packet, q: Packet)
    ensures Serialize([p, q]) == p.header + (p.payload + (q.header + q.payload))
  {
    assert [p, q][1..] == [q] && [q][1..] == [];
    assert Serialize([q]) == q.header + q.payload;
    ConcatAssociates(p.header, p.payload, q.header + q.payload);
  }

  /** Two packets in one read: the second stays in the buffer until more bytes come. */
  lemma SecondPacketWaits(p: Packet, q: Packet)
    requires Framed(p) && Framed(q)
    ensures AfterReads(SILENT, [Serialize([p, q])]).delivered == [p]
    ensures Undelivered(AfterReads(SILENT, [Serialize([p, q])])) == q.header + q.payload
  {
    var rest := q.header + q.payload;
    var bytes := Serialize([p, q]);
    TwoPackets(p, q);
    assert [] + bytes == bytes;
    assert bytes[..HEADER_SIZE] == p.header && bytes[HEADER_SIZE..] == p.payload + rest;
    assert TakeHeader(Receive(SILENT, bytes)) == ReadSide(p.payload + rest, Some(p.header), [], bytes);
    assert (p.payload + rest)[..|p.payload|] == p.payload && (p.payload + rest)[|p.payload|..] == rest;
    assert OnRead(SILENT, bytes) == ReadSide(rest, None, [] + [p], bytes);
    assert AfterReads(SILENT, [bytes]) == OnRead(SILENT, bytes);
  }

  lemma {:induction false} WholeBlocksAtMost(parts: seq<seq<byte>>, begin: nat, len: nat)
    ensures WholeBlocks(parts, begin, len) <= len
  {
    if parts != [] && begin <= |parts[0]| <= begin + len {
      WholeBlocksAtMost(parts[1..], 0, len - (|parts[0]| - begin));
    }
  }

  class NonblockingFdConnection {
    const writeBuffer: IOVector
    const readBuffer: IOVector
    var writable: bool
    var pollOut: bool
    var aborted: bool
    var readHeader: Option<seq<byte>>
    var delivered: seq<Packet>
    ghost var sent: seq<byte>
    ghost var queued: seq<Packet>
    ghost var failed: bool
    ghost var taken: seq<byte>

    ghost predicate Separate()
      reads writeBuffer, writeBuffer.Repr, readBuffer, readBuffer.Repr
    {
      && writeBuffer.Valid() && readBuffer.Valid() && writeBuffer.Repr !! readBuffer.Repr
      && this !in writeBuffer.Repr && this !in readBuffer.Repr
    }

    ghost predicate Valid()
      reads this, writeBuffer, writeBuffer.Repr, readBuffer, readBuffer.Repr
    {
      Separate() && (readHeader.Some? ==> |readHeader.value| == HEADER_SIZE)
    }

    ghost function Writes(): WriteSide
      requires writeBuffer.Valid()
      reads this, writeBuffer, writeBuffer.Repr
    {
      WriteSide(writeBuffer.Contents(), writable, pollOut, aborted, sent, queued, failed)
    }

    ghost function Reads(): ReadSide
      requires readBuffer.Valid()
      reads this, readBuffer, readBuffer.Repr
    {
      ReadSide(readBuffer.Contents(), readHeader, delivered, taken)
    }

    constructor ()
      ensures Valid() && Writes() == IDLE && Reads() == SILENT
    {
      writeBuffer := new IOVector();
      readBuffer := new IOVector();
      writable, pollOut, aborted, readHeader, delivered := true, false, false, None, [];
      sent, queued, failed, taken := [], [], false, [];
    }

    method DropBytes(n: nat)
      requires Valid() && LegalRc(Wrote(n), writeBuffer.Contents())
      modifies writeBuffer, writeBuffer.Repr
      ensures Valid() && writeBuffer.Repr <= old(writeBuffer.Repr)
      ensures writeBuffer.Contents() == old(writeBuffer.Contents())[n..]
    {
      WholeBlocksAtMost(writeBuffer.parts, writeBuffer.beginOffset, n);
      var _ := writeBuffer.DropFront(n);
    }

    method DropSent(n: nat)
      requires Valid() && LegalRc(Wrote(n), writeBuffer.Contents())
      modifies this`writable, this`sent, writeBuffer, writeBuffer.Repr
      ensures Valid() && writeBuffer.Repr <= old(writeBuffer.Repr)
      ensures writeBuffer.Contents() == old(writeBuffer.Contents())[n..]
      ensures sent == old(sent) + old(writeBuffer.Contents())[..n]
      ensures writable <==> writeBuffer.Contents() == []
    {
      sent := sent + writeBuffer.Contents()[..n];
      DropBytes(n);
      writable := writeBuffer.Size() == 0;
    }

    method WriteSome(rc: WriteRc) returns (result: WriteResult)
      requires Valid() && LegalRc(rc, writeBuffer.Contents()) && writeBuffer.Contents() != []
      modifies this`writable, this`sent, this`failed, writeBuffer, writeBuffer.Repr
      ensures Valid() && writeBuffer.Repr <= old(writeBuffer.Repr)
      ensures Writes() == Dispatch(old(Writes()), rc)
      ensures result == if rc == Failed || rc == Wrote(0) then Error
                        else if writeBuffer.Contents() == [] then Completed else TryAgain
    {
      match rc {
        case WouldBlock =>
          writable := false;
          return TryAgain;
        case Failed =>
          failed := true;
          return Error;
        case Wrote(n) =>
          if n == 0 {
            failed := true;
            return Error;
          }
          DropSent(n);
          return if writable then Completed else TryAgain;
      }
    }

    method DispatchWrites(rc: WriteRc) returns (result: WriteResult)
      requires Valid() && LegalRc(rc, writeBuffer.Contents())
      modifies this`writable, this`aborted, this`sent, this`failed, writeBuffer, writeBuffer.Repr
      ensures Valid() && writeBuffer.Repr <= old(writeBuffer.Repr)
      ensures Writes() == Dispatch(old(Writes()), rc)
      ensures result == Error <==> old(writeBuffer.Contents()) == [] || rc == Failed || rc == Wrote(0)
      ensures old(writeBuffer.Contents()) != [] ==> (result == Completed <==> writeBuffer.Contents() == [])
    {
      if writeBuffer.Size() == 0 {
        aborted := true;
        return Error;
      }
      result := WriteSome(rc);
    }

    method QueueBlock(block: Block)
      requires Valid() && block.Valid() && block !in writeBuffer.Repr && block !in readBuffer.Repr
      modifies writeBuffer, block
      ensures Valid() && fresh(writeBuffer.Repr - old(writeBuffer.Repr))
      ensures writeBuffer.Contents() == old(writeBuffer.Contents()) + old(block.data)
    {
      writeBuffer.Append(block);
    }

    method QueueHeader(header: seq<byte>)
      requires Valid()
      modifies writeBuffer
      ensures Valid() && fresh(writeBuffer.Repr - old(writeBuffer.Repr))
      ensures writeBuffer.Contents() == old(writeBuffer.Contents()) + header
    {
      var headerBlock := new Block(header);
      QueueBlock(headerBlock);
    }

    method Enqueue(header: seq<byte>, payload: Block)
      requires Valid() && payload.Valid() && payload !in writeBuffer.Repr && payload !in readBuffer.Repr
      modifies this`queued, writeBuffer, payload
      ensures Valid() && fresh(writeBuffer.Repr - old(writeBuffer.Repr))
      ensures Writes() == Queue(old(Writes()), Packet(header, old(payload.data)))
    {
      ghost var packet, was := Packet(header, payload.data), writeBuffer.Contents();
      ConcatAssociates(was, packet.header, packet.payload);
      QueueHeader(header);
      if |payload.data| != 0 {
        QueueBlock(payload);
      } else {
        assert was + packet.header + packet.payload == was + packet.header;
      }
      queued := queued + [packet];
    }

    /** Write: queues the packet and tries to send. `wake` says that the polling thread is woken. */
    method Write(header: seq<byte>, payload: Block, rc: WriteRc) returns (ok: bool, wake: bool)
      requires Valid() && payload.Valid() && payload !in writeBuffer.Repr && payload !in readBuffer.Repr
      requires Enabled(Writes(), WriteEvent.Write(Packet(header, payload.data), rc))
      modifies this`writable, this`aborted, this`sent, this`failed, this`queued,
        writeBuffer, writeBuffer.Repr, payload
      ensures Valid() && fresh(writeBuffer.Repr - old(writeBuffer.Repr))
      ensures Writes() == Step(old(Writes()), WriteEvent.Write(Packet(header, old(payload.data)), rc))
      ensures ok <==> rc != Failed && rc != Wrote(0)
      ensures wake <==> ok && writeBuffer.Contents() != []
    {
      Enqueue(header, payload);
      var result := DispatchWrites(rc);
      ok, wake := result != Error, result == TryAgain;
    }

    /** The look at writable_ before poll. */
    method PollForWrites()
      requires Valid() && !aborted
      modifies this`pollOut
      ensures Valid() && Writes() == Step(old(Writes()), Poll)
    {
      pollOut := !writable;
    }

    /** The branch for POLLOUT. */
    method OnPollOut(rc: WriteRc) returns (ok: bool)
      requires Valid() && Enabled(Writes(), PollOut(rc))
      modifies this`writable, this`aborted, this`sent, this`failed, this`pollOut, writeBuffer, writeBuffer.Repr
      ensures Valid() && writeBuffer.Repr <= old(writeBuffer.Repr)
      ensures Writes() == Step(old(Writes()), PollOut(rc))
      ensures ok <==> old(writeBuffer.Contents()) != [] && rc != Failed && rc != Wrote(0)
    {
      var result := DispatchWrites(rc);
      pollOut := false;
      ok := result != Error;
    }

    /** The first bytes of the read buffer, in one block. */
    method TakeBytes(n: nat) returns (block: Block)
      requires Valid() && n <= readBuffer.Size()
      modifies readBuffer, readBuffer.Repr
      ensures Valid() && fresh(readBuffer.Repr - old(readBuffer.Repr))
      ensures block.data == old(readBuffer.Contents())[..n] && readBuffer.Contents() == old(readBuffer.Contents())[n..]
    {
      var front := readBuffer.TakeFront(n);
      block := front.CoalesceAway();
    }

    method ReadHeader()
      requires Valid()
      modifies this`readHeader, readBuffer, readBuffer.Repr
      ensures Valid() && fresh(readBuffer.Repr - old(readBuffer.Repr))
      ensures Reads() == TakeHeader(old(Reads()))
    {
      if readHeader == None && readBuffer.Size() >= HEADER_SIZE {
        var headerBuf := TakeBytes(HEADER_SIZE);
        readHeader := Some(headerBuf.data);
      }
    }

    /** Hands out a packet with this header and the next `n` bytes. */
    method Deliver(header: seq<byte>, n: nat)
      requires Valid() && n <= readBuffer.Size()
      modifies this`readHeader, this`delivered, readBuffer, readBuffer.Repr
      ensures Valid() && fresh(readBuffer.Repr - old(readBuffer.Repr)) && readHeader == None
      ensures readBuffer.Contents() == old(readBuffer.Contents())[n..]
      ensures delivered == old(delivered) + [Packet(header, old(readBuffer.Contents())[..n])]
    {
      var payload := TakeBytes(n);
      readHeader, delivered := None, delivered + [Packet(header, payload.data)];
    }

    method ReadPayload()
      requires Valid()
      modifies this`readHeader, this`delivered, readBuffer, readBuffer.Repr
      ensures Valid() && fresh(readBuffer.Repr - old(readBuffer.Repr))
      ensures Reads() == TakePacket(old(Reads()))
    {
      if readHeader.Some? && readBuffer.Size() >= DataLength(readHeader.value) {
        Deliver(readHeader.value, DataLength(readHeader.value));
      }
    }

    method ReceiveBytes(bytes: seq<byte>)
      requires Valid()
      modifies this`taken, readBuffer, readBuffer.Repr
      ensures Valid() && fresh(readBuffer.Repr - old(readBuffer.Repr))
      ensures Reads() == Receive(old(Reads()), bytes)
    {
      var block := new Block(bytes);
      readBuffer.Append(block);
      taken := taken + bytes;
    }

    /** The branch for POLLIN, with the bytes that read returned. */
    method OnPollIn(bytes: seq<byte>)
      requires Valid() && 0 < |bytes| <= MAX_PAYLOAD
      modifies this`readHeader, this`delivered, this`taken, readBuffer, readBuffer.Repr
      ensures Valid() && fresh(readBuffer.Repr - old(readBuffer.Repr))
      ensures Reads() == OnRead(old(Reads()), bytes)
    {
      ReceiveBytes(bytes);
      ReadHeader();
      ReadPayload();
    }
  }
}
