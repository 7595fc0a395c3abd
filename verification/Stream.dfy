/** One adb stream between two endpoints: the OPEN/OKAY/WRTE/CLSE handling of handle_packet (adb/adb.cpp) and of the
    local and remote sockets (adb/sockets.cpp), over two FIFO packet channels. An event of one endpoint is one atomic
    step; the other endpoint's events are the same steps on the flipped state. */
module Stream {
  import opened Bytes
  import opened LocalSocket

  datatype Packet =
    | Open(arg0: nat, sendBytes: nat)
    | Okay(arg0: nat, arg1: nat, ack: Option<nat>)  // ack as the uint32_t on the wire
    | Wrte(arg0: nat, arg1: nat, data: seq<byte>)
    | Clse(arg0: nat, arg1: nat)

  /** Not created yet; on the socket list; on the closing list; freed. */
  datatype Place = Absent | Live | Lingering | Gone

  datatype Cause = NotClosed | ByLocal | ByPeer

  datatype Endpoint = Endpoint(
    opener: bool,
    id: nat,            // the id its local socket has or will get
    max: nat,           // get_max_payload of that socket
    delayed: bool,      // the transport's SupportsDelayedAck
    place: Place,
    cause: Cause,       // what took the socket off the socket list
    peer: nat,          // the id of the remote socket, 0 for none
    s: Local,
    got: seq<byte>,     // every byte read from the fd so far
    written: seq<byte>) // every byte written to the fd so far

  datatype State = State(me: Endpoint, other: Endpoint, out: seq<Packet>, inc: seq<Packet>)

  function Flip(st: State): State {
    State(st.other, st.me, st.inc, st.out)
  }

  datatype Event =
    | Connect
    | Deliver(rc: WriteRc, service: bool)
    | Readable(data: seq<byte>, eof: bool)
    | Writable(rc: WriteRc)
    | Shut

  function Grant(delayed: bool): nat {
    if delayed then INITIAL_DELAYED_ACK_BYTES else 0
  }

  /** The payload that send_ready attaches to an OKAY. */
  function AckOf(e: Endpoint, bytes: nat): Option<nat> {
    if e.delayed then Some(bytes) else None
  }

  /** local_socket_close. */
  function Finish(e: Endpoint, cause: Cause): (Endpoint, seq<Packet>) {
    var out := if e.peer != 0 then [Clse(e.id, e.peer)] else [];
    var e1 := e.(peer := 0, cause := if e.cause.NotClosed? then cause else e.cause);
    if ClosesNow(e.s) then (e1.(place := Gone, s := e.s.(rd := false, wr := false)), out)
    else (e1.(place := Lingering, s := e.s.(closing := true, rd := false)), out)
  }

  /** local_socket_flush_incoming. */
  function FlushIncoming(e: Endpoint, rc: WriteRc): (Endpoint, seq<Packet>)
    requires ValidRc(e.s.queue, rc)
  {
    var f := Flush(e.s, e.peer != 0, rc);
    var e1 := e.(s := f.s, written := e.written + f.wrote);
    var out := if f.okay.Some? then [Okay(e.id, e.peer, AckOf(e, f.okay.value))] else [];
    if f.destroyed then (Finish(e1, ByLocal).0, out + Finish(e1, ByLocal).1) else (e1, out)
  }

  /** local_socket_flush_outgoing, with `data` all that the fd gave before EAGAIN, end of file or a full payload. */
  function FlushOutgoing(e: Endpoint, data: seq<byte>, eof: bool): (Endpoint, seq<Packet>) {
    var e1 := e.(got := e.got + data);
    if data != [] && e.peer != 0 then
      var r := if |data| > MAX_PAYLOAD then -1 else 1;
      var e2 := e1.(s := Spent(e.s, |data|, r));
      var sent := [Wrte(e.id, e.peer, data)];
      if r < 0 then (e2, [])
      else if eof then (Finish(e2, ByLocal).0, sent + Finish(e2, ByLocal).1)
      else (e2, sent)
    else if eof then Finish(e1, ByLocal)
    else (e1, [])
  }

  /** find_local_socket. */
  predicate Found(e: Endpoint, local: nat, remote: nat) {
    e.place.Live? && e.id == local && (remote == 0 || (e.peer != 0 && e.peer == remote))
  }

  /** handle_packet on the four stream packets. An OPEN makes the endpoint's one socket of this stream. */
  function Receive(e: Endpoint, p: Packet, rc: WriteRc, service: bool): (Endpoint, seq<Packet>)
    requires p.Wrte? ==> ValidRc(e.s.queue + p.data, rc)
  {
    match p
    case Open(arg0, sendBytes) =>
      if arg0 == 0 || !e.place.Absent? then (e, [])
      else if e.delayed != (sendBytes != 0) || !service then (e, [Clse(0, arg0)])
      else
        var credit := if e.delayed then Some(sendBytes) else None;
        (e.(place := Live, peer := arg0, s := FRESH.(credit := credit, rd := true)),
         [Okay(e.id, arg0, AckOf(e, Grant(e.delayed)))])
    case Okay(arg0, arg1, ack) =>
      if arg0 == 0 || arg1 == 0 then (e, [])
      else if !Found(e, arg1, 0) then (e, [Clse(arg1, arg0)])
      else if e.peer == 0 then (e.(peer := arg0, s := Acked(e.s, ack)), [])
      else if e.peer == arg0 then (e.(s := Acked(e.s, ack)), [])
      else (e, [])
    case Clse(arg0, arg1) =>
      if arg1 != 0 && Found(e, arg1, arg0) then Finish(e, ByPeer) else (e, [])
    case Wrte(arg0, arg1, data) =>
      if arg0 != 0 && arg1 != 0 && Found(e, arg1, arg0)
      then FlushIncoming(e.(s := e.s.(queue := e.s.queue + data)), rc)
      else (e, [])
  }

  predicate Enabled(st: State, ev: Event) {
    match ev
    case Connect => st.me.opener && st.me.place.Absent?
    case Deliver(rc, _) =>
      && st.inc != []
      && (st.inc[0].Wrte? ==> ValidRc(st.me.s.queue + st.inc[0].data, rc))
    case Readable(data, _) => st.me.s.rd && |data| <= st.me.max
    case Writable(rc) => st.me.s.wr && ValidRc(st.me.s.queue, rc)
    case Shut => st.me.place.Live?
  }

  function Act(st: State, ev: Event): (Endpoint, seq<Packet>)
    requires Enabled(st, ev)
  {
    match ev
    case Connect =>
      (st.me.(place := Live, s := FRESH.(credit := if st.me.delayed then Some(0) else None)),
       [Open(st.me.id, Grant(st.me.delayed))])
    case Deliver(rc, service) => Receive(st.me, st.inc[0], rc, service)
    case Readable(data, eof) => FlushOutgoing(st.me, data, eof)
    case Writable(rc) => FlushIncoming(st.me, rc)
    case Shut => Finish(st.me, ByLocal)
  }

  function Step(st: State, ev: Event): State
    requires Enabled(st, ev)
  {
    var (me, sent) := Act(st, ev);
    State(me, st.other, st.out + sent, if ev.Deliver? then st.inc[1..] else st.inc)
  }

  /** A move is an event of the first endpoint or, flipped, of the second. */
  datatype Move = Move(second: bool, ev: Event)

  predicate CanMove(st: State, m: Move) {
    Enabled(if m.second then Flip(st) else st, m.ev)
  }

  function DoMove(st: State, m: Move): State
    requires CanMove(st, m)
  {
    if m.second then Flip(Step(Flip(st), m.ev)) else Step(st, m.ev)
  }

  predicate IsRun(st: State, run: seq<Move>)
    decreases |run|
  {
    run == [] || (CanMove(st, run[0]) && IsRun(DoMove(st, run[0]), run[1..]))
  }

  function After(st: State, run: seq<Move>): State
    requires IsRun(st, run)
    decreases |run|
  {
    if run == [] then st else After(DoMove(st, run[0]), run[1..])
  }

  predicate FreshEndpoint(e: Endpoint) {
    && e.id != 0 && e.max <= MAX_PAYLOAD && e.place.Absent? && e.cause.NotClosed? && e.peer == 0
    && e.s == FRESH && e.got == [] && e.written == []
  }

  predicate Initial(st: State) {
    && FreshEndpoint(st.me) && FreshEndpoint(st.other)
    && st.me.opener && !st.other.opener && st.out == [] && st.inc == []
  }
}
