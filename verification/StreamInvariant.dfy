/** What the two endpoints of a stream and the packets between them satisfy in every reachable state. The invariant
    sees a channel only through its cargo, a summary that sending and delivering a packet update at either end. */
module StreamInvariant {
  import opened Bytes
  import opened LocalSocket
  import opened Stream

  // ---- What a channel carries ----

  datatype Cargo = Cargo(
    n: nat,             // packets
    data: seq<byte>,    // the payloads of the WRTEs, in order
    acks: nat,          // the bytes that the OKAYs acknowledge
    opens: bool, okays: bool, wrtes: bool, clses: bool,  // the kinds of packet present
    okayFirst: bool,    // the next packet is an OKAY
    quiet: bool)        // no WRTE follows a CLSE

  const EMPTY := Cargo(0, [], 0, false, false, false, false, false, true)

  function AcksOf(p: Packet): nat {
    if p.Okay? && p.ack.Some? then p.ack.value else 0
  }

  function Cons(p: Packet, c: Cargo): Cargo {
    Cargo(c.n + 1, if p.Wrte? then p.data + c.data else c.data, AcksOf(p) + c.acks,
          p.Open? || c.opens, p.Okay? || c.okays, p.Wrte? || c.wrtes, p.Clse? || c.clses,
          p.Okay?, c.quiet && !(p.Clse? && c.wrtes))
  }

  function Snoc(c: Cargo, p: Packet): Cargo {
    Cargo(c.n + 1, if p.Wrte? then c.data + p.data else c.data, c.acks + AcksOf(p),
          c.opens || p.Open?, c.okays || p.Okay?, c.wrtes || p.Wrte?, c.clses || p.Clse?,
          if c.n == 0 then p.Okay? else c.okayFirst, c.quiet && !(c.clses && p.Wrte?))
  }

  function Load(q: seq<Packet>): Cargo {
    if q == [] then EMPTY else Cons(q[0], Load(q[1..]))
  }

  lemma ConsSnoc(p: Packet, c: Cargo, r: Packet)
    ensures Cons(p, Snoc(c, r)) == Snoc(Cons(p, c), r)
  {
    if p.Wrte? && r.Wrte? {
      assert p.data + (c.data + r.data) == (p.data + c.data) + r.data;
    }
  }

  lemma {:induction false} LoadSnoc(q: seq<Packet>, p: Packet)
    ensures Load(q + [p]) == Snoc(Load(q), p)
  {
    if q == [] {
      assert Load([p]) == Cons(p, Load([]));
    } else {
      LoadSnoc(q[1..], p);
      assert (q + [p])[1..] == q[1..] + [p];
      ConsSnoc(q[0], Load(q[1..]), p);
    }
  }

  predicate Sound(c: Cargo) {
    && (!c.wrtes ==> c.data == [])
    && (!c.okays ==> c.acks == 0)
    && (c.okayFirst ==> c.okays && c.n > 0)
    && (c.n == 0 ==> c == EMPTY)
  }

  lemma {:induction false} LoadSound(q: seq<Packet>)
    ensures Sound(Load(q)) && Load(q).n == |q|
  {
    if q != [] {
      LoadSound(q[1..]);
    }
  }

  // ---- The invariant ----

  /** What one endpoint keeps by itself. */
  predicate Own(e: Endpoint) {
    && e.id != 0
    && e.max <= MAX_PAYLOAD
    && (!e.place.Absent? ==> e.s.credit.Some? == e.delayed)
    && (e.s.credit.Some? ==> e.s.credit.value >= 0 || e.s.credit.value + e.max > 0)
    && match e.place
       case Absent => FreshEndpoint(e)
       case Live =>
         && Settled(e.s)
         && e.cause.NotClosed?
         && (e.s.rd ==> e.peer != 0)
         && (e.peer == 0 ==> e.opener && e.s.queue == [])
         && (e.delayed && !e.s.rd ==> e.s.credit.value <= 0)
       case Lingering =>
         e.peer == 0 && !e.cause.NotClosed? && e.s.closing && !e.s.rd && e.s.wr && FdFull(e.s)
       case Gone =>
         e.peer == 0 && !e.cause.NotClosed? && !e.s.rd && !e.s.wr && (e.s.queue == [] || e.s.writeError)
  }

  predicate Shape(p: Packet, me: Endpoint, other: Endpoint) {
    match p
    case Open(arg0, sendBytes) => me.opener && arg0 == me.id && sendBytes == Grant(me.delayed)
    case Okay(arg0, arg1, ack) =>
      && arg0 == me.id && arg1 == other.id && !me.place.Absent?
      && ack.Some? == me.delayed
      && (ack.Some? ==> ack.value < 0x8000_0000)
    case Wrte(arg0, arg1, data) =>
      arg0 == me.id && arg1 == other.id && data != [] && |data| <= me.max && !me.place.Absent?
    case Clse(arg0, arg1) =>
      arg1 == other.id && !me.place.Live? && arg0 == if me.place.Absent? then 0 else me.id
  }

  predicate Shapes(q: seq<Packet>, me: Endpoint, other: Endpoint) {
    forall i | 0 <= i < |q| :: Shape(q[i], me, other)
  }

  /** How a stream is set up and torn down, from `me`'s side; `out` and `inc` are what the channels carry. */
  predicate Wiring(me: Endpoint, other: Endpoint, out: Cargo, inc: Cargo) {
    && me.opener != other.opener
    && out.quiet
    && other.peer in {0, me.id}
    && (me.opener && me.place.Absent? ==> other.place.Absent? && out.n == 0 && inc.n == 0)
    && (me.place.Absent? && !other.place.Absent? ==> other.opener)
    && (me.place.Absent? ==> out.n <= 1 && !inc.okays && !inc.wrtes)
    && (me.peer != 0 ==> !other.place.Absent?)
    && (!me.place.Absent? && !other.place.Absent? ==> me.delayed == other.delayed)
    && (out.opens ==>
          && me.opener && !me.cause.ByPeer? && me.got == [] && me.peer == 0
          && other.place.Absent? && inc.n == 0 && out.n == 1)
    && (me.place.Live? && other.place.Absent? ==> me.opener && me.peer == 0 && (out.opens || inc.clses))
    && (other.place.Live? && other.peer == 0 && !me.place.Absent? ==> out.okayFirst)
    && (other.cause.ByPeer? ==> !me.place.Live? && !out.wrtes)
    && (other.place.Live? && (me.place.Lingering? || me.place.Gone?) ==> out.clses || inc.okays)
    && (out.clses ==> !me.place.Live?)
  }

  /** The bytes that have reached an endpoint, whether its fd took them yet or not. */
  function Arrived(e: Endpoint): seq<byte> {
    e.written + e.s.queue
  }

  /** The bytes going from `me` to `other`. */
  predicate Fifo(me: Endpoint, other: Endpoint, out: Cargo) {
    && Arrived(other) <= me.got
    && (!other.cause.ByLocal? ==> me.got == Arrived(other) + out.data)
  }

  function Held(e: Endpoint): nat {
    if e.place.Live? then |e.s.queue| else 0
  }

  /** The credit of `me` for the bytes going from `me` to `other`. */
  predicate Credit(me: Endpoint, other: Endpoint, out: Cargo, inc: Cargo) {
    me.delayed && me.s.credit.Some? ==>
      && (me.place.Live? && !other.place.Absent? ==>
            me.s.credit.value + |out.data| + Held(other) + inc.acks <= INITIAL_DELAYED_ACK_BYTES)
      && (me.place.Live? && other.place.Live? ==>
            me.s.credit.value + |out.data| + Held(other) + inc.acks == INITIAL_DELAYED_ACK_BYTES)
      && (other.place.Live? ==> |out.data| + |other.s.queue| <= INITIAL_DELAYED_ACK_BYTES + me.max)
      && (me.place.Live? && other.place.Absent? ==> me.s.credit.value == 0)
  }

  /** No lost wake-up for the bytes going from `me` to `other`. */
  predicate Wake(me: Endpoint, other: Endpoint, out: Cargo, inc: Cargo) {
    me.place.Live? && other.place.Live? && !me.s.rd && !other.s.writeError ==>
      out.wrtes || inc.okays || (other.s.queue != [] && other.s.wr)
  }

  predicate Dir(me: Endpoint, other: Endpoint, out: Cargo, inc: Cargo) {
    && Wiring(me, other, out, inc)
    && Fifo(me, other, out)
    && Credit(me, other, out, inc)
    && Wake(me, other, out, inc)
  }

  predicate Core(me: Endpoint, other: Endpoint, out: Cargo, inc: Cargo) {
    && Own(me) && Own(other) && Sound(out) && Sound(inc)
    && Dir(me, other, out, inc)
    && Dir(other, me, inc, out)
  }

  predicate Inv(st: State) {
    && Shapes(st.out, st.me, st.other)
    && Shapes(st.inc, st.other, st.me)
    && Core(st.me, st.other, Load(st.out), Load(st.inc))
  }
}
