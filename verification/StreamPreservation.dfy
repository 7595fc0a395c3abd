/** Every event keeps the stream invariant. The lemmas named ...Core work on cargo; those named ...Inv on packets.
    (`== true` keeps the verifier from checking the many conjuncts of the invariant one by one.) */
module StreamPreservation {
  import opened Bytes
  import opened LocalSocket
  import opened Stream
  import opened StreamInvariant

  lemma InitialInv(st: State)
    requires Initial(st)
    ensures Inv(st)
  {
  }

  lemma ConnectCore(me: Endpoint, other: Endpoint, out: Cargo, inc: Cargo)
    requires Core(me, other, out, inc) && me.opener && me.place.Absent?
    ensures var (me', sent) := Act(State(me, other, [], []), Connect);
      Core(me', other, Snoc(out, sent[0]), inc)
  {
  }

  function FinishSent(me: Endpoint, out: Cargo): Cargo {
    if me.peer != 0 then Snoc(out, Clse(me.id, me.peer)) else out
  }

  /** A live socket closes, by itself or on the CLSE at the head of `inc`; `rest` is what `inc` then carries. */
  predicate Closes(me: Endpoint, other: Endpoint, out: Cargo, inc: Cargo, rest: Cargo, cause: Cause) {
    && Core(me, other, out, inc) && me.place.Live? && Sound(rest)
    && if cause.ByPeer? then inc == Cons(Clse(0, 0), rest)
       else cause.ByLocal? && rest == inc
  }

  lemma FinishOwn(me: Endpoint, other: Endpoint, out: Cargo, inc: Cargo, rest: Cargo, cause: Cause)
    requires Closes(me, other, out, inc, rest, cause)
    ensures Own(Finish(me, cause).0) && Sound(FinishSent(me, out))
  {
  }

  lemma FinishOut(me: Endpoint, other: Endpoint, out: Cargo, inc: Cargo, rest: Cargo, cause: Cause)
    requires Closes(me, other, out, inc, rest, cause)
    ensures Dir(Finish(me, cause).0, other, FinishSent(me, out), rest)
  {
  }

  lemma FinishIncWiring(me: Endpoint, other: Endpoint, out: Cargo, inc: Cargo, rest: Cargo, cause: Cause)
    requires Closes(me, other, out, inc, rest, cause)
    ensures Wiring(other, Finish(me, cause).0, rest, FinishSent(me, out))
  {
  }

  lemma FinishInc(me: Endpoint, other: Endpoint, out: Cargo, inc: Cargo, rest: Cargo, cause: Cause)
    requires Closes(me, other, out, inc, rest, cause)
    ensures Dir(other, Finish(me, cause).0, rest, FinishSent(me, out))
  {
    FinishIncWiring(me, other, out, inc, rest, cause);
    var me' := Finish(me, cause).0;
    assert me'.written == me.written && me'.s.queue == me.s.queue && me'.got == me.got;
  }

  function Sent(out: Cargo, sent: seq<Packet>): Cargo {
    if sent != [] then Snoc(out, sent[0]) else out
  }

  lemma ReadOwn(me: Endpoint, other: Endpoint, out: Cargo, inc: Cargo, data: seq<byte>)
    requires Core(me, other, out, inc) && me.s.rd && |data| <= me.max
    ensures var (me', sent) := FlushOutgoing(me, data, false);
      |sent| <= 1 && Own(me') && Sound(Sent(out, sent))
  {
  }

  /** What a read changes. */
  lemma ReadEffect(me: Endpoint, data: seq<byte>)
    requires Own(me) && me.s.rd && |data| <= me.max
    ensures var (me', sent) := FlushOutgoing(me, data, false);
      && me' == me.(got := me.got + data, s := if data == [] then me.s else Spent(me.s, |data|, 1))
      && sent == if data == [] then [] else [Wrte(me.id, me.peer, data)]
  {
  }

  lemma ReadOutWiring(me: Endpoint, other: Endpoint, out: Cargo, inc: Cargo, data: seq<byte>)
    requires Core(me, other, out, inc) && me.s.rd && |data| <= me.max
    ensures var (me', sent) := FlushOutgoing(me, data, false);
      Wiring(me', other, Sent(out, sent), inc) == true
  {
    ReadEffect(me, data);
  }

  lemma ReadOutFlow(me: Endpoint, other: Endpoint, out: Cargo, inc: Cargo, data: seq<byte>)
    requires Core(me, other, out, inc) && me.s.rd && |data| <= me.max
    ensures var (me', sent) := FlushOutgoing(me, data, false);
      && Fifo(me', other, Sent(out, sent)) && Credit(me', other, Sent(out, sent), inc)
      && Wake(me', other, Sent(out, sent), inc)
  {
    ReadEffect(me, data);
    ConcatAssociates(Arrived(other), out.data, data);
  }

  lemma ReadOut(me: Endpoint, other: Endpoint, out: Cargo, inc: Cargo, data: seq<byte>)
    requires Core(me, other, out, inc) && me.s.rd && |data| <= me.max
    ensures var (me', sent) := FlushOutgoing(me, data, false);
      Dir(me', other, Sent(out, sent), inc) == true
  {
    ReadOutWiring(me, other, out, inc, data);
    ReadOutFlow(me, other, out, inc, data);
  }

  lemma ReadInc(me: Endpoint, other: Endpoint, out: Cargo, inc: Cargo, data: seq<byte>)
    requires Core(me, other, out, inc) && me.s.rd && |data| <= me.max
    ensures var (me', sent) := FlushOutgoing(me, data, false);
      Dir(other, me', inc, Sent(out, sent)) == true
  {
  }

  lemma OpenCore(me: Endpoint, other: Endpoint, out: Cargo, p: Packet, rest: Cargo, rc: WriteRc, service: bool)
    requires Core(me, other, out, Cons(p, rest)) && Sound(rest) && p.Open? && Shape(p, other, me)
    ensures var (me', sent) := Receive(me, p, rc, service);
      |sent| == 1 && Core(me', other, Sent(out, sent), rest)
  {
  }

  /** An OKAY for a socket that is not live any more is answered with a CLSE. */
  lemma StaleOkayOut(me: Endpoint, other: Endpoint, out: Cargo, p: Packet, rest: Cargo, rc: WriteRc, service: bool)
    requires Core(me, other, out, Cons(p, rest)) && Sound(rest) && p.Okay? && Shape(p, other, me)
    requires !me.place.Live?
    ensures var (me', sent) := Receive(me, p, rc, service);
      me' == me && |sent| == 1 && Sound(Sent(out, sent)) && Dir(me', other, Sent(out, sent), rest)
  {
  }

  lemma LiveOkayOwn(me: Endpoint, other: Endpoint, out: Cargo, p: Packet, rest: Cargo, rc: WriteRc, service: bool)
    requires Core(me, other, out, Cons(p, rest)) && Sound(rest) && p.Okay? && Shape(p, other, me)
    requires me.place.Live?
    ensures var (me', sent) := Receive(me, p, rc, service);
      sent == [] && Own(me')
  {
  }

  lemma LiveOkayOut(me: Endpoint, other: Endpoint, out: Cargo, p: Packet, rest: Cargo, rc: WriteRc, service: bool)
    requires Core(me, other, out, Cons(p, rest)) && Sound(rest) && p.Okay? && Shape(p, other, me)
    requires me.place.Live?
    ensures Dir(Receive(me, p, rc, service).0, other, out, rest)
  {
  }

  lemma OkayInc(me: Endpoint, other: Endpoint, out: Cargo, p: Packet, rest: Cargo, rc: WriteRc, service: bool)
    requires Core(me, other, out, Cons(p, rest)) && Sound(rest) && p.Okay? && Shape(p, other, me)
    ensures var (me', sent) := Receive(me, p, rc, service);
      Dir(other, me', rest, Sent(out, sent)) == true
  {
  }

  /** A flush of the queue with `data` appended, the payload of the WRTE at the head of `inc` if there is one. */
  predicate Flushes(me: Endpoint, other: Endpoint, out: Cargo, inc: Cargo, data: seq<byte>, rest: Cargo, rc: WriteRc) {
    && Core(me, other, out, inc) && Sound(rest)
    && ValidRc(me.s.queue + data, rc)
    && if data == [] then me.s.wr && inc == rest
       else me.place.Live? && me.peer != 0 && inc == Cons(Wrte(0, 0, data), rest)
  }

  function Queued(me: Endpoint, data: seq<byte>): Endpoint {
    me.(s := me.s.(queue := me.s.queue + data))
  }

  lemma FlushAcks(e: Endpoint, rc: WriteRc)
    requires ValidRc(e.s.queue, rc) && e.peer != 0 && !e.s.closing
    ensures var (e', sent) := FlushIncoming(e, rc);
      && e'.s.rd == e.s.rd
      && (e.s.credit.Some? ==> sent == [Okay(e.id, e.peer, AckOf(e, AsUint32(|e.s.queue| - |e'.s.queue|)))])
  {
  }

  predicate SameEnds(e: Endpoint, e': Endpoint) {
    && e'.opener == e.opener && e'.id == e.id && e'.max == e.max && e'.delayed == e.delayed && e'.got == e.got
    && (e.cause.NotClosed? || e'.cause == e.cause)
  }

  /** All that Wiring depends on. */
  predicate SameWires(e: Endpoint, e': Endpoint) {
    SameEnds(e, e') && e'.peer == e.peer && e'.place == e.place && e'.cause == e.cause
  }

  lemma FlushKeeps(e: Endpoint, rc: WriteRc)
    requires ValidRc(e.s.queue, rc)
    ensures var (e', sent), f := FlushIncoming(e, rc), Flush(e.s, e.peer != 0, rc);
      && e'.s.queue == f.s.queue && e'.written == e.written + f.wrote && |f.wrote| == |e.s.queue| - |f.s.queue|
      && SameEnds(e, e') && (!e.s.closing ==> SameWires(e, e'))
      && (if e.peer == 0 then sent == [] else !e.s.closing ==> |sent| <= 1 && forall p | p in sent :: p.Okay?)
  {
  }

  /** The bytes a flush writes are exactly those that the fd takes, and those it takes off the queue and, with delayed
      acks, acknowledges. */
  lemma FlushEffect(e: Endpoint, rc: WriteRc)
    requires ValidRc(e.s.queue, rc)
    ensures var (e', sent) := FlushIncoming(e, rc);
      && Arrived(e') == Arrived(e) && e'.got == e.got && e'.cause in {e.cause, ByLocal}
      && |e'.written| - |e.written| == |e.s.queue| - |e'.s.queue|
      && |e'.written| - |e.written| == (if e.s.queue != [] && rc.Accepted? then rc.n else 0)
      && (e.cause != NotClosed ==> e'.cause == e.cause)
      && (e.peer != 0 && !e.s.closing ==>
            && e'.place == e.place && e'.peer == e.peer && e'.cause == e.cause && e'.s.rd == e.s.rd
            && (e.s.credit.Some? ==>
                  sent == [Okay(e.id, e.peer, AckOf(e, AsUint32(|e.s.queue| - |e'.s.queue|)))]))
  {
    FlushTakes(e.s, e.peer != 0, rc);
    FlushKeeps(e, rc);
    var f := Flush(e.s, e.peer != 0, rc);
    ConcatAssociates(e.written, f.wrote, f.s.queue);
    if e.peer != 0 && !e.s.closing {
      FlushAcks(e, rc);
    }
  }

  lemma FlushOwn(me: Endpoint, other: Endpoint, out: Cargo, inc: Cargo, data: seq<byte>, rest: Cargo, rc: WriteRc)
    requires Flushes(me, other, out, inc, data, rest, rc)
    ensures Own(FlushIncoming(Queued(me, data), rc).0)
  {
    assert data == [] ==> me.s.queue + data == me.s.queue;
  }

  lemma FlushSound(me: Endpoint, other: Endpoint, out: Cargo, inc: Cargo, data: seq<byte>, rest: Cargo, rc: WriteRc)
    requires Flushes(me, other, out, inc, data, rest, rc)
    ensures var sent := FlushIncoming(Queued(me, data), rc).1;
      |sent| <= 1 && Sound(Sent(out, sent))
  {
    assert data == [] ==> me.s.queue + data == me.s.queue;
  }

  /** A flush of a live socket leaves the wiring as it is: at most, an OKAY goes out and a WRTE has come in. */
  lemma WiringOfLive(me: Endpoint, me': Endpoint, other: Endpoint, out: Cargo, inc: Cargo, data: seq<byte>, rest: Cargo,
                     sent: seq<Packet>)
    requires Wiring(me, other, out, inc) && Wiring(other, me, inc, out) && Sound(out) && Sound(rest)
    requires me.place.Live? && SameWires(me, me') && |sent| <= 1
    requires sent != [] ==> sent[0].Okay? && me.peer != 0
    requires inc == rest || (me.peer != 0 && inc == Cons(Wrte(0, 0, data), rest))
    ensures Wiring(me', other, Sent(out, sent), rest) && Wiring(other, me', rest, Sent(out, sent))
  {
  }

  /** A flush of a socket on the closing list may free it. */
  lemma WiringOfLingering(me: Endpoint, me': Endpoint, other: Endpoint, out: Cargo, inc: Cargo)
    requires Wiring(me, other, out, inc) && Wiring(other, me, inc, out)
    requires me.place.Lingering? && me.peer == 0 && !me.cause.NotClosed? && SameEnds(me, me') && me'.peer == 0
    requires me'.place.Lingering? || me'.place.Gone?
    ensures Wiring(me', other, out, inc) && Wiring(other, me', inc, out)
  {
  }

  lemma FlushWiring(me: Endpoint, other: Endpoint, out: Cargo, inc: Cargo, data: seq<byte>, rest: Cargo, rc: WriteRc)
    requires Flushes(me, other, out, inc, data, rest, rc)
    ensures var (me', sent) := FlushIncoming(Queued(me, data), rc);
      Wiring(me', other, Sent(out, sent), rest) == true && Wiring(other, me', rest, Sent(out, sent)) == true
  {
    var (me', sent) := FlushIncoming(Queued(me, data), rc);
    FlushKeeps(Queued(me, data), rc);
    if me.place.Live? {
      WiringOfLive(me, me', other, out, inc, data, rest, sent);
    } else {
      WiringOfLingering(me, me', other, out, inc);
    }
  }

  lemma FlushOutFlow(me: Endpoint, other: Endpoint, out: Cargo, inc: Cargo, data: seq<byte>, rest: Cargo, rc: WriteRc)
    requires Flushes(me, other, out, inc, data, rest, rc)
    ensures var (me', sent) := FlushIncoming(Queued(me, data), rc);
      && Fifo(me', other, Sent(out, sent)) && Credit(me', other, Sent(out, sent), rest)
      && Wake(me', other, Sent(out, sent), rest)
  {
    FlushEffect(Queued(me, data), rc);
  }

  lemma FlushIncWake(me: Endpoint, other: Endpoint, out: Cargo, inc: Cargo, data: seq<byte>, rest: Cargo, rc: WriteRc)
    requires Flushes(me, other, out, inc, data, rest, rc)
    ensures var (me', sent) := FlushIncoming(Queued(me, data), rc);
      Wake(other, me', rest, Sent(out, sent))
  {
  }

  lemma Arrives(me: Endpoint, data: seq<byte>)
    ensures Arrived(Queued(me, data)) == Arrived(me) + data
    ensures forall rest :: Arrived(me) + data + rest == Arrived(me) + (data + rest)
  {
  }

  lemma FlushIncFifo(me: Endpoint, other: Endpoint, out: Cargo, inc: Cargo, data: seq<byte>, rest: Cargo, rc: WriteRc)
    requires Flushes(me, other, out, inc, data, rest, rc)
    ensures var (me', sent) := FlushIncoming(Queued(me, data), rc);
      Fifo(other, me', rest)
  {
    FlushEffect(Queued(me, data), rc);
    Arrives(me, data);
  }

  /** What a flush of a live socket takes off the queue, it acknowledges. */
  lemma FlushCredits(e: Endpoint, rc: WriteRc)
    requires ValidRc(e.s.queue, rc) && e.peer != 0 && !e.s.closing && e.s.credit.Some?
    ensures var (e', sent) := FlushIncoming(e, rc);
      && |e'.s.queue| <= |e.s.queue| && e'.place == e.place
      && sent == [Okay(e.id, e.peer, AckOf(e, AsUint32(|e.s.queue| - |e'.s.queue|)))]
  {
    FlushEffect(e, rc);
  }

  lemma FlushIncCredit(me: Endpoint, other: Endpoint, out: Cargo, inc: Cargo, data: seq<byte>, rest: Cargo, rc: WriteRc)
    requires Flushes(me, other, out, inc, data, rest, rc)
    ensures var (me', sent) := FlushIncoming(Queued(me, data), rc);
      Credit(other, me', rest, Sent(out, sent))
  {
    var q, me' := Queued(me, data), FlushIncoming(Queued(me, data), rc).0;
    if other.delayed && other.s.credit.Some? && me.place.Live? {
      if me.peer != 0 {
        FlushCredits(q, rc);
      }
      assert |q.s.queue| <= INITIAL_DELAYED_ACK_BYTES + other.max;
      assert AsUint32(|q.s.queue| - |me'.s.queue|) == |q.s.queue| - |me'.s.queue|;
    }
  }

  /** What an endpoint never changes, and the places it may move to once packets of its are on the way. */
  predicate Continues(e: Endpoint, e': Endpoint) {
    && e'.opener == e.opener && e'.id == e.id && e'.max == e.max && e'.delayed == e.delayed
    && (e'.place == e.place || (!e.place.Absent? && !e'.place.Absent? && !e'.place.Live?))
  }

  lemma FinishCore(me: Endpoint, other: Endpoint, out: Cargo, inc: Cargo, rest: Cargo, cause: Cause)
    requires Closes(me, other, out, inc, rest, cause)
    ensures var (me', sent) := Finish(me, cause);
      |sent| <= 1 && Core(me', other, Sent(out, sent), rest) == true
  {
    FinishOwn(me, other, out, inc, rest, cause);
    FinishOut(me, other, out, inc, rest, cause);
    FinishInc(me, other, out, inc, rest, cause);
  }

  lemma ReadCore(me: Endpoint, other: Endpoint, out: Cargo, inc: Cargo, data: seq<byte>)
    requires Core(me, other, out, inc) && me.s.rd && |data| <= me.max
    ensures var (me', sent) := FlushOutgoing(me, data, false);
      |sent| <= 1 && Core(me', other, Sent(out, sent), inc) == true
  {
    ReadOwn(me, other, out, inc, data);
    ReadOut(me, other, out, inc, data);
    ReadInc(me, other, out, inc, data);
  }

  lemma FlushCore(me: Endpoint, other: Endpoint, out: Cargo, inc: Cargo, data: seq<byte>, rest: Cargo, rc: WriteRc)
    requires Flushes(me, other, out, inc, data, rest, rc)
    ensures var (me', sent) := FlushIncoming(Queued(me, data), rc);
      |sent| <= 1 && Core(me', other, Sent(out, sent), rest) == true
  {
    FlushOwn(me, other, out, inc, data, rest, rc);
    FlushSound(me, other, out, inc, data, rest, rc);
    FlushWiring(me, other, out, inc, data, rest, rc);
    FlushOutFlow(me, other, out, inc, data, rest, rc);
    FlushIncWake(me, other, out, inc, data, rest, rc);
    FlushIncFifo(me, other, out, inc, data, rest, rc);
    FlushIncCredit(me, other, out, inc, data, rest, rc);
  }

  lemma OkayCore(me: Endpoint, other: Endpoint, out: Cargo, p: Packet, rest: Cargo, rc: WriteRc, service: bool)
    requires Core(me, other, out, Cons(p, rest)) && Sound(rest) && p.Okay? && Shape(p, other, me)
    ensures var (me', sent) := Receive(me, p, rc, service);
      |sent| <= 1 && Core(me', other, Sent(out, sent), rest) == true
  {
    if me.place.Live? {
      LiveOkayOwn(me, other, out, p, rest, rc, service);
      LiveOkayOut(me, other, out, p, rest, rc, service);
    } else {
      StaleOkayOut(me, other, out, p, rest, rc, service);
    }
    OkayInc(me, other, out, p, rest, rc, service);
  }

  lemma ReadShape(me: Endpoint, other: Endpoint, out: Cargo, inc: Cargo, data: seq<byte>)
    requires Core(me, other, out, inc) && me.s.rd && |data| <= me.max
    ensures var (me', sent) := FlushOutgoing(me, data, false);
      Continues(me, me') && me'.place.Live? && (sent != [] ==> Shape(sent[0], me', other))
  {
  }

  lemma FlushBound(me: Endpoint, other: Endpoint, out: Cargo, inc: Cargo, data: seq<byte>, rest: Cargo, rc: WriteRc)
    requires Flushes(me, other, out, inc, data, rest, rc)
    requires me.delayed && me.peer != 0
    ensures |Queued(me, data).s.queue| <= INITIAL_DELAYED_ACK_BYTES + MAX_PAYLOAD
  {
    assert |me.s.queue + data| == |me.s.queue| + |data|;
    assert data != [] ==> |inc.data| == |data| + |rest.data|;
  }

  lemma FlushContinues(me: Endpoint, other: Endpoint, out: Cargo, inc: Cargo, data: seq<byte>, rest: Cargo, rc: WriteRc)
    requires Flushes(me, other, out, inc, data, rest, rc)
    ensures Continues(me, FlushIncoming(Queued(me, data), rc).0)
  {
  }

  lemma FlushShape(me: Endpoint, other: Endpoint, out: Cargo, inc: Cargo, data: seq<byte>, rest: Cargo, rc: WriteRc)
    requires Flushes(me, other, out, inc, data, rest, rc)
    ensures var (me', sent) := FlushIncoming(Queued(me, data), rc);
      sent != [] ==> Shape(sent[0], me', other)
  {
    if me.peer != 0 {
      FlushEffect(Queued(me, data), rc);
      if me.delayed {
        FlushBound(me, other, out, inc, data, rest, rc);
      }
    }
  }

  /** A WRTE to a socket that is not live any more is dropped. */
  lemma LostWrte(me: Endpoint, other: Endpoint, out: Cargo, p: Packet, rest: Cargo)
    requires Core(me, other, out, Cons(p, rest)) && Sound(rest) && p.Wrte? && !me.place.Live?
    ensures Core(me, other, out, rest)
  {
  }

  /** A CLSE finds its socket, unless that socket is not live any more. */
  lemma LostClse(me: Endpoint, other: Endpoint, out: Cargo, p: Packet, rest: Cargo)
    requires Core(me, other, out, Cons(p, rest)) && Sound(rest) && p.Clse? && Shape(p, other, me)
    requires !Found(me, p.arg1, p.arg0)
    ensures !me.place.Live? && Core(me, other, out, rest)
  {
  }

  lemma ClseCore(me: Endpoint, other: Endpoint, out: Cargo, p: Packet, rest: Cargo, rc: WriteRc, service: bool)
    requires Core(me, other, out, Cons(p, rest)) && Sound(rest) && p.Clse? && Shape(p, other, me)
    ensures var (me', sent) := Receive(me, p, rc, service);
      |sent| <= 1 && Core(me', other, Sent(out, sent), rest) == true
  {
    if Found(me, p.arg1, p.arg0) {
      FinishCore(me, other, out, Cons(p, rest), rest, ByPeer);
    } else {
      LostClse(me, other, out, p, rest);
    }
  }

  /** A WRTE to a live socket finds it. */
  lemma WrteFinds(me: Endpoint, other: Endpoint, out: Cargo, p: Packet, rest: Cargo, rc: WriteRc)
    requires Core(me, other, out, Cons(p, rest)) && Sound(rest) && p.Wrte? && Shape(p, other, me) && me.place.Live?
    requires ValidRc(me.s.queue + p.data, rc)
    ensures p.arg0 != 0 && p.arg1 != 0 && Found(me, p.arg1, p.arg0)
    ensures Flushes(me, other, out, Cons(p, rest), p.data, rest, rc)
  {
  }

  lemma WrteCore(me: Endpoint, other: Endpoint, out: Cargo, p: Packet, rest: Cargo, rc: WriteRc, service: bool)
    requires Core(me, other, out, Cons(p, rest)) && Sound(rest) && p.Wrte? && Shape(p, other, me)
    requires ValidRc(me.s.queue + p.data, rc)
    ensures var (me', sent) := Receive(me, p, rc, service);
      |sent| <= 1 && Core(me', other, Sent(out, sent), rest) == true
  {
    if me.place.Live? {
      WrteFinds(me, other, out, p, rest, rc);
      FlushCore(me, other, out, Cons(p, rest), p.data, rest, rc);
      assert Receive(me, p, rc, service) == FlushIncoming(Queued(me, p.data), rc);
    } else {
      LostWrte(me, other, out, p, rest);
      assert Receive(me, p, rc, service) == (me, []);
    }
  }

  /** Handling any packet that can be at the head of `inc`. */
  lemma ReceiveCore(me: Endpoint, other: Endpoint, out: Cargo, p: Packet, rest: Cargo, rc: WriteRc, service: bool)
    requires Core(me, other, out, Cons(p, rest)) && Sound(rest) && Shape(p, other, me)
    requires p.Wrte? ==> ValidRc(me.s.queue + p.data, rc)
    ensures var (me', sent) := Receive(me, p, rc, service);
      |sent| <= 1 && Core(me', other, Sent(out, sent), rest) == true
  {
    match p
    case Open(_, _) => OpenCore(me, other, out, p, rest, rc, service);
    case Okay(_, _, _) => OkayCore(me, other, out, p, rest, rc, service);
    case Clse(_, _) => ClseCore(me, other, out, p, rest, rc, service);
    case Wrte(_, _, _) => WrteCore(me, other, out, p, rest, rc, service);
  }

  lemma ReceiveShape(me: Endpoint, other: Endpoint, out: Cargo, p: Packet, rest: Cargo, rc: WriteRc, service: bool)
    requires Core(me, other, out, Cons(p, rest)) && Sound(rest) && Shape(p, other, me)
    requires p.Wrte? ==> ValidRc(me.s.queue + p.data, rc)
    ensures var (me', sent) := Receive(me, p, rc, service);
      && (out.n == 0 || Continues(me, me')) && me'.id == me.id
      && (sent != [] ==> Shape(sent[0], me', other))
  {
    if p.Wrte? && me.place.Live? {
      FlushContinues(me, other, out, Cons(p, rest), p.data, rest, rc);
      FlushShape(me, other, out, Cons(p, rest), p.data, rest, rc);
    }
  }

  // ---- From cargo back to packets ----

  lemma ShapesKept(q: seq<Packet>, me: Endpoint, me': Endpoint, other: Endpoint, other': Endpoint)
    requires Shapes(q, me, other) && other'.id == other.id
    requires q == [] || Continues(me, me')
    ensures Shapes(q, me', other')
  {
  }

  lemma LoadSent(q: seq<Packet>, sent: seq<Packet>)
    requires |sent| <= 1
    ensures Load(q + sent) == Sent(Load(q), sent)
  {
    if sent == [] {
      assert q + sent == q;
    } else {
      assert sent == [sent[0]];
      LoadSnoc(q, sent[0]);
    }
  }

  lemma LoadRest(q: seq<Packet>, me: Endpoint, other: Endpoint)
    requires q != [] && Shapes(q, me, other)
    ensures Load(q) == Cons(q[0], Load(q[1..])) && Sound(Load(q)) && Sound(Load(q[1..]))
    ensures Shape(q[0], me, other) && Shapes(q[1..], me, other)
  {
    LoadSound(q);
    LoadSound(q[1..]);
  }

  lemma AssembleShapes(st: State, me': Endpoint, sent: seq<Packet>, rest: seq<Packet>)
    requires |sent| <= 1 && Shapes(st.out, st.me, st.other) && (st.out == [] || Continues(st.me, me'))
    requires sent != [] ==> Shape(sent[0], me', st.other)
    requires Shapes(rest, st.other, st.me) && me'.id == st.me.id
    ensures Shapes(st.out + sent, me', st.other) && Shapes(rest, st.other, me')
  {
    ShapesKept(rest, st.other, st.other, st.me, me');
    ShapesKept(st.out, st.me, me', st.other, st.other);
  }

  lemma Assemble(st: State, me': Endpoint, sent: seq<Packet>, rest: seq<Packet>)
    requires |sent| <= 1 && Core(me', st.other, Sent(Load(st.out), sent), Load(rest))
    requires Shapes(st.out, st.me, st.other) && (st.out == [] || Continues(st.me, me'))
    requires sent != [] ==> Shape(sent[0], me', st.other)
    requires Shapes(rest, st.other, st.me) && me'.id == st.me.id
    ensures Inv(State(me', st.other, st.out + sent, rest)) == true
  {
    LoadSent(st.out, sent);
    AssembleShapes(st, me', sent, rest);
  }

  lemma ConnectInv(st: State)
    requires Inv(st) && Enabled(st, Connect)
    ensures Inv(Step(st, Connect)) == true
  {
    var (me', sent) := Act(st, Connect);
    LoadSound(st.out);
    LoadSound(st.inc);
    ConnectCore(st.me, st.other, Load(st.out), Load(st.inc));
    Assemble(st, me', sent, st.inc);
  }

  lemma FinishShape(me: Endpoint, other: Endpoint, out: Cargo, inc: Cargo, rest: Cargo, cause: Cause)
    requires Closes(me, other, out, inc, rest, cause)
    ensures var (me', sent) := Finish(me, cause);
      Continues(me, me') && (sent != [] ==> Shape(sent[0], me', other))
  {
  }

  lemma FinishInv(st: State, rest: seq<Packet>, cause: Cause)
    requires Shapes(st.out, st.me, st.other) && Shapes(rest, st.other, st.me)
    requires Closes(st.me, st.other, Load(st.out), Load(st.inc), Load(rest), cause)
    ensures var (me', sent) := Finish(st.me, cause);
      Inv(State(me', st.other, st.out + sent, rest)) == true
  {
    var (me', sent) := Finish(st.me, cause);
    assert Core(me', st.other, Sent(Load(st.out), sent), Load(rest)) == true by {
      FinishCore(st.me, st.other, Load(st.out), Load(st.inc), Load(rest), cause);
    }
    FinishShape(st.me, st.other, Load(st.out), Load(st.inc), Load(rest), cause);
    Assemble(st, me', sent, rest);
  }

  lemma ShutInv(st: State)
    requires Inv(st) && Enabled(st, Shut)
    ensures Inv(Step(st, Shut)) == true
  {
    FinishInv(st, st.inc, ByLocal);
  }

  lemma ReadInv(st: State, data: seq<byte>)
    requires Inv(st) && Enabled(st, Readable(data, false))
    ensures Inv(Step(st, Readable(data, false))) == true
    ensures Step(st, Readable(data, false)).me.place.Live?
  {
    var (me', sent) := FlushOutgoing(st.me, data, false);
    ReadCore(st.me, st.other, Load(st.out), Load(st.inc), data);
    ReadShape(st.me, st.other, Load(st.out), Load(st.inc), data);
    Assemble(st, me', sent, st.inc);
  }

  /** A read that sees the end of the file is one that does not, and a close. */
  lemma ReadThenShut(st: State, data: seq<byte>)
    requires Enabled(st, Readable(data, false)) && st.me.max <= MAX_PAYLOAD
    requires Enabled(Step(st, Readable(data, false)), Shut)
    ensures Step(st, Readable(data, true)) == Step(Step(st, Readable(data, false)), Shut)
  {
    var (mid, sent) := FlushOutgoing(st.me, data, false);
    var last := Finish(mid, ByLocal).1;
    assert FlushOutgoing(st.me, data, true) == (Finish(mid, ByLocal).0, sent + last) by {
      assert [] + last == last;
    }
    ConcatAssociates(st.out, sent, last);
  }

  lemma ReadEofInv(st: State, data: seq<byte>)
    requires Inv(st) && Enabled(st, Readable(data, true))
    ensures Inv(Step(st, Readable(data, true))) == true
  {
    ReadInv(st, data);
    ShutInv(Step(st, Readable(data, false)));
    ReadThenShut(st, data);
  }

  lemma FlushInv(st: State, data: seq<byte>, rest: seq<Packet>, rc: WriteRc)
    requires Shapes(st.out, st.me, st.other) && Shapes(rest, st.other, st.me)
    requires Flushes(st.me, st.other, Load(st.out), Load(st.inc), data, Load(rest), rc)
    ensures var (me', sent) := FlushIncoming(Queued(st.me, data), rc);
      Inv(State(me', st.other, st.out + sent, rest)) == true
  {
    var (me', sent) := FlushIncoming(Queued(st.me, data), rc);
    FlushCore(st.me, st.other, Load(st.out), Load(st.inc), data, Load(rest), rc);
    FlushContinues(st.me, st.other, Load(st.out), Load(st.inc), data, Load(rest), rc);
    FlushShape(st.me, st.other, Load(st.out), Load(st.inc), data, Load(rest), rc);
    Assemble(st, me', sent, rest);
  }

  lemma WritableInv(st: State, rc: WriteRc)
    requires Inv(st) && Enabled(st, Writable(rc))
    ensures Inv(Step(st, Writable(rc))) == true
  {
    assert st.me.s.queue + [] == st.me.s.queue;
    assert Queued(st.me, []) == st.me;
    FlushInv(st, [], st.inc, rc);
  }

  lemma DeliverInv(st: State, rc: WriteRc, service: bool)
    requires Inv(st) && Enabled(st, Deliver(rc, service))
    ensures Inv(Step(st, Deliver(rc, service))) == true
  {
    var p, rest := st.inc[0], Load(st.inc[1..]);
    var (me', sent) := Receive(st.me, p, rc, service);
    LoadSound(st.out);
    LoadRest(st.inc, st.other, st.me);
    ReceiveCore(st.me, st.other, Load(st.out), p, rest, rc, service);
    ReceiveShape(st.me, st.other, Load(st.out), p, rest, rc, service);
    Assemble(st, me', sent, st.inc[1..]);
  }

  lemma StepInv(st: State, ev: Event)
    requires Inv(st) && Enabled(st, ev)
    ensures Inv(Step(st, ev))
  {
    match ev
    case Connect => ConnectInv(st);
    case Readable(data, eof) => if eof { ReadEofInv(st, data); } else { ReadInv(st, data); }
    case Writable(rc) => WritableInv(st, rc);
    case Shut => ShutInv(st);
    case Deliver(rc, service) => DeliverInv(st, rc, service);
  }

  lemma {:induction false} RunInv(st: State, run: seq<Move>)
    requires Inv(st) && IsRun(st, run)
    ensures Inv(After(st, run))
    decreases |run|
  {
    if run != [] {
      if run[0].second {
        StepInv(Flip(st), run[0].ev);
      } else {
        StepInv(st, run[0].ev);
      }
      RunInv(DoMove(st, run[0]), run[1..]);
    }
  }
}
