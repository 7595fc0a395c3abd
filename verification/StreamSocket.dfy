/** A local socket of SocketGraph that is linked to a remote one, with the packets of handle_packet (adb/adb.cpp) and
    the events of its fd, makes exactly the steps of a Stream endpoint. */
module StreamSocket {
  import opened Bytes
  import opened LocalSocket
  import opened SocketGraph
  import opened Stream
  import opened StreamInvariant

  // ---- What happens to one end of a stream ----

  datatype Happening =
    | Dial
    | Incoming(p: Packet, rc: WriteRc, service: bool)
    | FdReadable(got: seq<ReadRc>)
    | FdWritable(rc: WriteRc)
    | Close

  /** An event that can occur: packets are addressed to the endpoint, and an OPEN makes it. */
  predicate Can(e: Endpoint, h: Happening) {
    match h
    case Dial => e.opener && e.place.Absent?
    case Incoming(p, rc, _) =>
      (match p
       case Open(_, _) => e.place.Absent?
       case Okay(_, arg1, _) => arg1 == e.id
       case Clse(_, arg1) => arg1 == e.id
       case Wrte(_, arg1, data) => arg1 == e.id && ValidRc(e.s.queue + data, rc))
    case FdReadable(got) => e.s.rd && LegalReads(got, e.max)
    case FdWritable(rc) => e.s.wr && ValidRc(e.s.queue, rc)
    case Close => e.place.Live?
  }

  function AsEvent(h: Happening, max: nat): Event
    requires h.FdReadable? ==> LegalReads(h.got, max)
  {
    match h
    case Dial => Connect
    case Incoming(_, rc, service) => Deliver(rc, service)
    case FdReadable(got) => Readable(Drain(got, max).0, Drain(got, max).1)
    case FdWritable(rc) => Writable(rc)
    case Close => Shut
  }

  /** What it makes of the endpoint, and the packets it sends. */
  function Does(e: Endpoint, h: Happening): (Endpoint, seq<Packet>)
    requires Can(e, h)
  {
    match h
    case Dial => Act(State(e, e, [], []), Connect)
    case Incoming(p, rc, service) => Receive(e, p, rc, service)
    case FdReadable(got) => FlushOutgoing(e, Drain(got, e.max).0, Drain(got, e.max).1)
    case FdWritable(rc) => FlushIncoming(e, rc)
    case Close => Finish(e, ByLocal)
  }

  /** In every state of a stream, an event of one end is a step of Stream. */
  lemma DoesIsStep(st: State, h: Happening)
    requires Can(st.me, h) && (h.Incoming? ==> st.inc != [] && st.inc[0] == h.p)
    ensures var ev := AsEvent(h, st.me.max);
      && Enabled(st, ev)
      && Step(st, ev) == State(Does(st.me, h).0, st.other, st.out + Does(st.me, h).1,
                               if h.Incoming? then st.inc[1..] else st.inc)
  {
  }

  /** In every reachable state, the next packet can be delivered in this way. */
  lemma DeliveryCan(st: State, rc: WriteRc, service: bool)
    requires Inv(st) && Enabled(st, Deliver(rc, service))
    ensures Can(st.me, Incoming(st.inc[0], rc, service))
  {
    assert Shape(st.inc[0], st.other, st.me);
  }

  // ---- The end of a stream in a process ----

  function OnWire(s: Sent, delayed: bool): Packet {
    match s
    case SentOpen(_, local, bytes) => Open(local, bytes)
    case SentReady(_, local, remote, bytes) => Okay(local, remote, if delayed then Some(bytes) else None)
    case SentWrite(_, local, remote, data) => Wrte(local, remote, data)
    case SentClose(_, local, remote) => Clse(local, remote)
  }

  /** The packets handed to one transport. */
  function AllOnWire(sent: seq<Sent>, delayed: bool): (packets: seq<Packet>)
    ensures |packets| == |sent|
  {
    seq(|sent|, i requires 0 <= i < |sent| => OnWire(sent[i], delayed))
  }

  /** What was sent in between is `packets`, on transport `t`. */
  predicate Sends(before: seq<Sent>, after: seq<Sent>, t: nat, delayed: bool, packets: seq<Packet>) {
    && before <= after
    && AllOnWire(after[|before|..], delayed) == packets
    && forall i | |before| <= i < |after| :: after[i].transport == t
  }

  lemma SendsNothing(before: seq<Sent>, t: nat, delayed: bool)
    ensures Sends(before, before, t, delayed, [])
  {
  }

  lemma SendsOne(before: seq<Sent>, s: Sent, t: nat, delayed: bool)
    requires s.transport == t
    ensures Sends(before, before + [s], t, delayed, [OnWire(s, delayed)])
  {
  }

  lemma SendsTwo(before: seq<Sent>, s: Sent, s': Sent, t: nat, delayed: bool)
    requires s.transport == t == s'.transport
    ensures Sends(before, before + [s] + [s'], t, delayed, [OnWire(s, delayed)] + [OnWire(s', delayed)])
  {
  }

  function WithQueued(e: Endpoint, data: seq<byte>): Endpoint {
    e.(s := Queued(e.s, data))
  }

  lemma FlushSends(before: seq<Sent>, e: Endpoint, rc: WriteRc, t: nat)
    requires ValidRc(e.s.queue, rc) && (e.s.closing ==> e.peer == 0)
    ensures var f := Flush(e.s, e.peer != 0, rc);
      var sent := if f.okay.Some? then [SentReady(t, e.id, e.peer, f.okay.value)] else [];
      Sends(before, before + sent, t, e.delayed, FlushIncoming(e, rc).1)
  {
    var f := Flush(e.s, e.peer != 0, rc);
    if f.okay.Some? {
      SendsOne(before, SentReady(t, e.id, e.peer, f.okay.value), t, e.delayed);
      assert [OnWire(SentReady(t, e.id, e.peer, f.okay.value), e.delayed)] + []
          == [OnWire(SentReady(t, e.id, e.peer, f.okay.value), e.delayed)];
    } else {
      SendsNothing(before, t, e.delayed);
    }
  }

  lemma StaysLive(e: Endpoint, rc: WriteRc)
    requires ValidRc(e.s.queue, rc) && !e.s.closing
    ensures var f := Flush(e.s, e.peer != 0, rc);
      !f.destroyed && FlushIncoming(e, rc).0 == e.(s := f.s, written := e.written + f.wrote)
  {
  }

  lemma StaysParked(e: Endpoint, rc: WriteRc)
    requires ValidRc(e.s.queue, rc) && e.s.closing && e.peer == 0 && e.place.Lingering? && !e.cause.NotClosed?
    ensures var f := Flush(e.s, false, rc);
      FlushIncoming(e, rc).0
      == if f.destroyed
         then e.(place := Gone, s := f.s.(rd := false, wr := false), written := e.written + f.wrote)
         else e.(s := f.s, written := e.written + f.wrote)
  {
  }

  lemma ReadSends(before: seq<Sent>, e: Endpoint, data: seq<byte>, eof: bool, t: nat)
    requires |data| <= MAX_PAYLOAD
    ensures var wrte := if data != [] && e.peer != 0 then [SentWrite(t, e.id, e.peer, data)] else [];
      var clse := if eof && e.peer != 0 then [SentClose(t, e.id, e.peer)] else [];
      Sends(before, before + wrte + clse, t, e.delayed, FlushOutgoing(e, data, eof).1)
  {
    var wrte, clse := SentWrite(t, e.id, e.peer, data), SentClose(t, e.id, e.peer);
    SendsNothing(before, t, e.delayed);
    SendsOne(before, wrte, t, e.delayed);
    SendsOne(before, clse, t, e.delayed);
    SendsTwo(before, wrte, clse, t, e.delayed);
    assert before + [] == before && before + [wrte] + [] == before + [wrte];
  }

  function HasRead(e: Endpoint, data: seq<byte>): Endpoint {
    e.(got := e.got + data, s := if data == [] || e.peer == 0 then e.s else Spent(e.s, |data|, 1))
  }

  function Closed(e: Endpoint, cause: Cause): Endpoint {
    if ClosesNow(e.s) then e.(place := Gone, peer := 0, cause := cause, s := e.s.(rd := false, wr := false))
    else e.(place := Lingering, peer := 0, cause := cause, s := Sockets.Parked(e.s))
  }

  lemma FinishIsClosed(e: Endpoint, cause: Cause)
    requires e.cause.NotClosed?
    ensures Finish(e, cause).0 == Closed(e, cause)
  {
  }

  lemma ReadEffect(e: Endpoint, data: seq<byte>, eof: bool)
    requires |data| <= MAX_PAYLOAD && e.cause.NotClosed?
    ensures FlushOutgoing(e, data, eof).0 == if eof then Closed(HasRead(e, data), ByLocal) else HasRead(e, data)
  {
    FinishIsClosed(HasRead(e, data), ByLocal);
  }

  class End {
    const sockets: Sockets
    const transport: nat
    const id: nat
    const max: nat
    const delayed: bool
    var socket: Asocket?
    ghost var e: Endpoint

    ghost predicate Linked(x: Asocket, e: Endpoint)
      reads x, x.peer
    {
      && x.s == e.s
      && if x.peer == null then e.peer == 0
         else x.peer.kind == RemoteKind && x.peer.id == e.peer != 0 && x.peer.transport == transport
    }

    /** The socket is what the endpoint says. */
    ghost predicate Shows(e: Endpoint)
      requires sockets.Valid()
      reads this, sockets, sockets.all
    {
      && (socket == null <==> e.place.Absent?)
      && (forall x | x in sockets.live && x.id == e.id :: x == socket)
      && match e.place
         case Absent => FreshEndpoint(e)
         case Live =>
           && socket in sockets.live && socket.id == e.id && socket.transport == transport && Linked(socket, e)
           && e.cause.NotClosed?
         case Lingering =>
           socket in sockets.closing && socket.s == e.s && e.peer == 0 && !e.cause.NotClosed?
         case Gone => socket !in sockets.all && !e.s.rd && !e.s.wr
    }

    ghost predicate Valid()
      reads this, sockets, sockets.all
    {
      && transport != 0 && e.id == id != 0 && e.max == max <= MAX_PAYLOAD && e.delayed == delayed
      && sockets.Valid() && Shows(e)
    }

    /** A stream that has no socket yet. */
    constructor (sockets: Sockets, transport: nat, opener: bool, id: nat, max: nat, delayed: bool)
      requires sockets.Valid() && transport != 0 && id != 0 && max <= MAX_PAYLOAD
      requires forall x | x in sockets.live :: x.id != id
      ensures Valid() && this.sockets == sockets && this.transport == transport && FreshEndpoint(e)
      ensures e.opener == opener && e.id == id && e.max == max && e.delayed == delayed
    {
      this.sockets, this.transport, this.id, this.max, this.delayed := sockets, transport, id, max, delayed;
      socket := null;
      e := Endpoint(opener, id, max, delayed, Absent, NotClosed, 0, FRESH, [], []);
    }

    method FlushLive(data: seq<byte>, rc: WriteRc)
      requires Valid() && e.place.Live? && ValidRc(e.s.queue + data, rc)
      modifies this`e, sockets, socket
      ensures Valid() && sockets.all == old(sockets.all)
      ensures var (after, packets) := FlushIncoming(WithQueued(old(e), data), rc);
        e == after && Sends(old(sockets.sent), sockets.sent, transport, e.delayed, packets) == true
    {
      ghost var f := Flush(Queued(e.s, data), e.peer != 0, rc);
      StaysLive(WithQueued(e, data), rc);
      FlushSends(sockets.sent, WithQueued(e, data), rc, transport);
      var full, alive := sockets.FlushIncoming(socket, data, rc);
      e := e.(s := f.s, written := e.written + f.wrote);
    }

    method FlushParked(rc: WriteRc)
      requires Valid() && e.place.Lingering? && ValidRc(e.s.queue, rc)
      modifies this`e, sockets, socket
      ensures Valid() && sockets.all <= old(sockets.all)
      ensures var (after, packets) := FlushIncoming(old(e), rc);
        e == after && Sends(old(sockets.sent), sockets.sent, transport, e.delayed, packets) == true
    {
      ghost var f := Flush(e.s, false, rc);
      assert e.s.queue + [] == e.s.queue;
      StaysParked(e, rc);
      FlushSends(sockets.sent, e, rc, transport);
      var full, alive := sockets.FlushIncoming(socket, [], rc);
      e := if f.destroyed
           then e.(place := Gone, s := f.s.(rd := false, wr := false), written := e.written + f.wrote)
           else e.(s := f.s, written := e.written + f.wrote);
    }

    /** local_socket_flush_incoming, once `data` is on the queue. */
    method FlushSocket(data: seq<byte>, rc: WriteRc)
      requires Valid() && (e.place.Live? || (e.place.Lingering? && data == [])) && ValidRc(e.s.queue + data, rc)
      modifies this`e, sockets, socket
      ensures Valid() && fresh(sockets.all - old(sockets.all))
      ensures var (after, packets) := FlushIncoming(WithQueued(old(e), data), rc);
        e == after && Sends(old(sockets.sent), sockets.sent, transport, e.delayed, packets) == true
    {
      if !socket.s.closing {
        FlushLive(data, rc);
      } else {
        assert WithQueued(e, []) == e;
        FlushParked(rc);
      }
    }

    /** local_socket_close, by decision or on a packet. */
    method CloseSocket(ghost cause: Cause)
      requires Valid() && e.place.Live? && cause != NotClosed
      modifies this`e, sockets, sockets.all
      ensures Valid() && fresh(sockets.all - old(sockets.all))
      ensures var (after, packets) := Finish(old(e), cause);
        e == after && Sends(old(sockets.sent), sockets.sent, transport, e.delayed, packets)
    {
      SendsNothing(sockets.sent, transport, e.delayed);
      SendsOne(sockets.sent, SentClose(transport, e.id, e.peer), transport, e.delayed);
      FinishIsClosed(e, cause);
      sockets.Close(socket, null);
      e := Closed(e, cause);
    }

    /** The heap's part of local_socket_flush_outgoing. */
    method ReadSocket(got: seq<ReadRc>) returns (open: bool, ghost data: seq<byte>)
      requires Valid() && e.s.rd && LegalReads(got, e.max)
      modifies sockets, sockets.all
      ensures sockets.Valid() && sockets.all <= old(sockets.all) && (data, !open) == Drain(got, max)
      ensures Shows(if open then HasRead(e, data) else Closed(HasRead(e, data), ByLocal))
      ensures Sends(old(sockets.sent), sockets.sent, transport, e.delayed, FlushOutgoing(e, data, !open).1) == true
    {
      open, data := sockets.FlushToRemote(socket, got, max);
      ReadSends(old(sockets.sent), e, data, !open, transport);
    }

    /** local_socket_flush_outgoing. */
    method Read(got: seq<ReadRc>)
      requires Valid() && e.s.rd && LegalReads(got, e.max)
      modifies this`e, sockets, sockets.all
      ensures Valid() && fresh(sockets.all - old(sockets.all))
      ensures var (data, eof) := Drain(got, old(e).max);
        var (after, packets) := FlushOutgoing(old(e), data, eof);
        e == after && Sends(old(sockets.sent), sockets.sent, transport, e.delayed, packets) == true
    {
      var open, data := ReadSocket(got);
      ReadEffect(e, data, !open);
      e := if open then HasRead(e, data) else Closed(HasRead(e, data), ByLocal);
    }

    /** A_WRTE. */
    method OnWrte(p: Packet, rc: WriteRc)
      requires Valid() && p.Wrte? && p.arg1 == e.id && ValidRc(e.s.queue + p.data, rc)
      modifies this`e, sockets, sockets.all
      ensures Valid() && fresh(sockets.all - old(sockets.all))
      ensures var (after, packets) := Receive(old(e), p, rc, true);
        e == after && Sends(old(sockets.sent), sockets.sent, transport, e.delayed, packets)
    {
      SendsNothing(sockets.sent, transport, e.delayed);
      if p.arg0 != 0 && p.arg1 != 0 {
        var found := sockets.FindLocal(p.arg1, p.arg0);
        if found != null {
          FlushSocket(p.data, rc);
        }
      }
    }

    /** A_CLSE. */
    method OnClse(p: Packet)
      requires Valid() && p.Clse? && p.arg1 == e.id
      modifies this`e, sockets, sockets.all
      ensures Valid() && fresh(sockets.all - old(sockets.all))
      ensures var (after, packets) := Receive(old(e), p, WouldBlock, true);
        e == after && Sends(old(sockets.sent), sockets.sent, transport, e.delayed, packets)
    {
      SendsNothing(sockets.sent, transport, e.delayed);
      if p.arg1 != 0 {
        var found := sockets.FindLocal(p.arg1, p.arg0);
        if found != null {
          CloseSocket(ByPeer);
        }
      }
    }

    method SetPeer(remote: nat)
      requires Valid() && e.place.Live? && socket.peer == null && remote != 0
      modifies this`e, sockets`all, socket
      ensures Valid() && fresh(sockets.all - old(sockets.all)) && e == old(e).(peer := remote) && socket.peer != null
    {
      sockets.ConnectRemote(socket, remote, transport);
      e := e.(peer := remote);
    }

    method TakeAck(ack: Option<nat>)
      requires Valid() && e.place.Live?
      modifies this`e, socket
      ensures Valid() && e == old(e).(s := Acked(old(e.s), ack))
    {
      sockets.Ack(socket, ack);
      e := e.(s := Acked(e.s, ack));
    }

    /** create_local_socket. */
    method MakeSocket()
      requires Valid() && e.place.Absent?
      modifies this`e, this`socket, sockets`live, sockets`all
      ensures Valid() && fresh(sockets.all - old(sockets.all)) && fresh(socket) && socket.peer == null
      ensures e == old(e).(place := Live)
    {
      socket := sockets.CreateLocal(id, transport);
      e := e.(place := Live);
    }

    /** Sets the credit, or what the fd is watched for. */
    method SetLocal(credit: Option<int>, rd: bool)
      requires Valid() && e.place.Live?
      modifies this`e, socket
      ensures Valid() && e == old(e).(s := old(e.s).(credit := credit, rd := rd))
      ensures socket.s == e.s && socket.peer == old(socket.peer)
    {
      sockets.Store(socket, socket.s.(credit := credit, rd := rd));
      e := e.(s := e.s.(credit := credit, rd := rd));
    }

    method Send(sent: Sent)
      requires Valid()
      modifies sockets`sent
      ensures Valid() && sockets.sent == old(sockets.sent) + [sent]
    {
      sockets.sent := sockets.sent + [sent];
    }

    /** A_OKAY. */
    method OnOkay(p: Packet)
      requires Valid() && p.Okay? && p.arg1 == e.id
      modifies this`e, sockets, sockets.all
      ensures Valid() == true && fresh(sockets.all - old(sockets.all))
      ensures var (after, packets) := Receive(old(e), p, WouldBlock, true);
        e == after && Sends(old(sockets.sent), sockets.sent, transport, e.delayed, packets) == true
    {
      SendsNothing(sockets.sent, transport, e.delayed);
      if p.arg0 == 0 || p.arg1 == 0 {
        return;
      }
      var s := sockets.FindLocal(p.arg1, 0);
      if s == null {
        SendsOne(sockets.sent, SentClose(transport, p.arg1, p.arg0), transport, e.delayed);
        Send(SentClose(transport, p.arg1, p.arg0));
        return;
      }
      if s.peer == null {
        SetPeer(p.arg0);
        TakeAck(p.ack);
      } else if s.peer.id == p.arg0 {
        TakeAck(p.ack);
      }
    }

    /** connect_to_remote for a new socket. */
    method OnDial()
      requires Valid() && FreshEndpoint(e) && e.opener
      modifies this, sockets
      ensures Valid() && fresh(sockets.all - old(sockets.all))
      ensures var (after, packets) := Does(old(e), Dial);
        e == after && Sends(old(sockets.sent), sockets.sent, transport, e.delayed, packets)
    {
      SendsOne(sockets.sent, SentOpen(transport, id, Grant(delayed)), transport, delayed);
      MakeSocket();
      if delayed {
        SetLocal(Some(0), false);
      }
      Send(SentOpen(transport, id, Grant(delayed)));
    }

    method MakeLinked(remote: nat, credit: Option<int>)
      requires Valid() && FreshEndpoint(e) && remote != 0
      modifies this`e, this`socket, sockets`live, sockets`all
      ensures Valid() && fresh(sockets.all - old(sockets.all)) && fresh(socket)
      ensures e == old(e).(place := Live, peer := remote, s := FRESH.(credit := credit)) && socket.s == e.s
    {
      MakeSocket();
      SetPeer(remote);
      SetLocal(credit, false);
    }

    /** A_OPEN for a service that exists. */
    method Accept(remote: nat, sendBytes: nat)
      requires Valid() && FreshEndpoint(e) && remote != 0 && delayed == (sendBytes != 0)
      modifies this, sockets
      ensures Valid() && fresh(sockets.all - old(sockets.all))
      ensures var (after, packets) := Receive(old(e), Open(remote, sendBytes), WouldBlock, true);
        e == after && Sends(old(sockets.sent), sockets.sent, transport, e.delayed, packets) == true
    {
      SendsOne(sockets.sent, SentReady(transport, id, remote, Grant(delayed)), transport, delayed);
      MakeLinked(remote, if delayed then Some(sendBytes) else None);
      Send(SentReady(transport, id, remote, Grant(delayed)));
      SetLocal(socket.s.credit, true);
    }

    /** A_OPEN, for a service that exists or does not. */
    method OnOpen(p: Packet, service: bool)
      requires Valid() && p.Open? && FreshEndpoint(e)
      modifies this, sockets
      ensures Valid() && fresh(sockets.all - old(sockets.all))
      ensures var (after, packets) := Receive(old(e), p, WouldBlock, service);
        e == after && Sends(old(sockets.sent), sockets.sent, transport, e.delayed, packets)
    {
      SendsNothing(sockets.sent, transport, delayed);
      if p.arg0 == 0 {
        return;
      }
      if delayed != (p.sendBytes != 0) || !service {
        SendsOne(sockets.sent, SentClose(transport, 0, p.arg0), transport, delayed);
        Send(SentClose(transport, 0, p.arg0));
        return;
      }
      Accept(p.arg0, p.sendBytes);
    }

    method OnPacket(p: Packet, rc: WriteRc, service: bool)
      requires Valid() && Can(e, Incoming(p, rc, service))
      modifies this, sockets, sockets.all
      ensures Valid() && fresh(sockets.all - old(sockets.all))
      ensures var (after, packets) := Receive(old(e), p, rc, service);
        e == after && Sends(old(sockets.sent), sockets.sent, transport, e.delayed, packets)
    {
      match p
      case Open(_, _) => OnOpen(p, service);
      case Okay(_, _, _) => OnOkay(p);
      case Clse(_, _) => OnClse(p);
      case Wrte(_, _, _) => OnWrte(p, rc);
    }

    /** Whatever happens to the socket, it does what the endpoint does, and sends what that sends. */
    method Happens(h: Happening)
      requires Valid() && Can(e, h)
      modifies this, sockets, sockets.all
      ensures Valid() == true && e == Does(old(e), h).0
      ensures Sends(old(sockets.sent), sockets.sent, transport, e.delayed, Does(old(e), h).1) == true
      ensures fresh(sockets.all - old(sockets.all))
    {
      match h
      case Dial => OnDial();
      case Incoming(p, rc, service) => OnPacket(p, rc, service);
      case FdReadable(got) => Read(got);
      case FdWritable(rc) =>
        assert WithQueued(e, []) == e;
        FlushSocket([], rc);
      case Close => CloseSocket(ByLocal);
    }
  }
}
