/** What holds in every run of a stream: credit is conserved, bytes are neither lost nor reordered, no wake-up is lost,
    and every schedule of deliveries and writes settles. */
module StreamTheorems {
  import opened Bytes
  import opened LocalSocket
  import opened Stream
  import opened StreamInvariant
  import opened StreamPreservation

  // ---- What every run keeps ----

  /** In each direction of an open stream with delayed acks, the sender's credit, the bytes on the way, the bytes
      queued at the receiver and the bytes acknowledged but not yet credited add up to the initial credit. */
  predicate CreditBalanced(st: State) {
    st.me.delayed && st.me.place.Live? && st.other.place.Live? ==>
      && st.me.s.credit.Some?
      && st.me.s.credit.value + |Load(st.out).data| + |st.other.s.queue| + Load(st.inc).acks
         == INITIAL_DELAYED_ACK_BYTES
      && (st.me.max > 0 ==>
            |Load(st.out).data| + |st.other.s.queue| < INITIAL_DELAYED_ACK_BYTES + st.me.max)
  }

  /** A socket reads its fd only when it is linked to a peer and has credit left. */
  predicate ReadsOnlyWithCredit(st: State) {
    st.me.s.rd ==>
      && st.me.place.Live? && st.me.peer != 0
      && (st.me.delayed ==> st.me.s.credit.Some? && st.me.s.credit.value > 0)
  }

  lemma CreditConserved(st: State, run: seq<Move>)
    requires Initial(st) && IsRun(st, run)
    ensures var now := After(st, run);
      && CreditBalanced(now) && CreditBalanced(Flip(now))
      && ReadsOnlyWithCredit(now) && ReadsOnlyWithCredit(Flip(now))
  {
    InitialInv(st);
    RunInv(st, run);
  }

  predicate CountsUp(p: Packet, delayed: bool)
    requires p.Okay?
  {
    p.ack.Some? == delayed && (p.ack.Some? ==> AsInt32(p.ack.value) == p.ack.value)
  }

  /** No OKAY on the way carries a count that the int32_t on the other side would read as negative. */
  predicate AcksArePositive(st: State) {
    forall i | 0 <= i < |st.out| && st.out[i].Okay? :: CountsUp(st.out[i], st.me.delayed)
  }

  lemma AcksStayPositive(st: State, run: seq<Move>)
    requires Initial(st) && IsRun(st, run)
    ensures AcksArePositive(After(st, run)) && AcksArePositive(Flip(After(st, run)))
  {
    InitialInv(st);
    RunInv(st, run);
    var now := After(st, run);
    forall i | 0 <= i < |now.out| && now.out[i].Okay? ensures CountsUp(now.out[i], now.me.delayed) {
      assert Shape(now.out[i], now.me, now.other);
    }
    forall i | 0 <= i < |now.inc| && now.inc[i].Okay? ensures CountsUp(now.inc[i], now.other.delayed) {
      assert Shape(now.inc[i], now.other, now.me);
    }
  }

  /** Bytes arrive in order; none are lost unless the receiving socket closes by its own decision; and a socket is
      freed only when its fd has taken everything that arrived, or has failed. */
  predicate NothingLost(st: State) {
    && Arrived(st.other) <= st.me.got
    && (!st.other.cause.ByLocal? ==> st.me.got == Arrived(st.other) + Load(st.out).data)
    && (st.other.place.Gone? ==> st.other.s.queue == [] || st.other.s.writeError)
    && (st.other.place.Gone? && st.other.cause.ByPeer? && !st.other.s.writeError ==> st.other.written == st.me.got)
  }

  lemma StreamIsLossless(st: State, run: seq<Move>)
    requires Initial(st) && IsRun(st, run)
    ensures NothingLost(After(st, run)) && NothingLost(Flip(After(st, run)))
  {
    InitialInv(st);
    RunInv(st, run);
    var now := After(st, run);
    LoadSound(now.out);
    LoadSound(now.inc);
    assert now.me.written + [] == now.me.written && now.other.written + [] == now.other.written;
    assert Arrived(now.me) + [] == Arrived(now.me) && Arrived(now.other) + [] == Arrived(now.other);
  }

  /** If a sender does not read its fd, something is on the way that will make it read again. */
  predicate WillWake(st: State) {
    st.me.place.Live? && !st.me.s.rd && !st.other.s.writeError ==>
      match st.other.place
      case Absent => Load(st.out).opens || Load(st.inc).clses
      case Live => Load(st.out).wrtes || Load(st.inc).okays || (st.other.s.queue != [] && st.other.s.wr)
      case _ => Load(st.inc).clses || Load(st.out).okays
  }

  lemma NoLostWakeup(st: State, run: seq<Move>)
    requires Initial(st) && IsRun(st, run)
    ensures WillWake(After(st, run)) && WillWake(Flip(After(st, run)))
  {
    InitialInv(st);
    RunInv(st, run);
  }

  /** A socket on the closing list has its last bytes to write and FDE_WRITE armed, so the CHECK that ends
      local_socket_close holds. */
  predicate ArmedIfClosing(e: Endpoint) {
    e.place.Lingering? ==> e.s.closing && e.peer == 0 && e.s.wr && e.s.queue != [] && !e.s.writeError
  }

  lemma ClosingListIsArmed(st: State, run: seq<Move>)
    requires Initial(st) && IsRun(st, run)
    ensures ArmedIfClosing(After(st, run).me) && ArmedIfClosing(After(st, run).other)
  {
    InitialInv(st);
    RunInv(st, run);
  }

  // ---- Every schedule settles ----

  /** An event that moves what is already under way: any delivery, or a write that the fd does not refuse. */
  predicate Progress(ev: Event) {
    ev.Deliver? || (ev.Writable? && !ev.rc.WouldBlock?)
  }

  function Weight(p: Packet): nat {
    match p
    case Open(_, _) => 6
    case Okay(_, _, _) => 2
    case Clse(_, _) => 1
    case Wrte(_, _, data) => 3 * |data| + 3
  }

  function Weights(q: seq<Packet>): nat {
    if q == [] then 0 else Weight(q[0]) + Weights(q[1..])
  }

  function Pending(e: Endpoint): nat {
    3 * |e.s.queue| + (if e.s.writeError then 0 else 3)
    + match e.place case Live => 3 case Lingering => 1 case _ => 0
  }

  function Measure(st: State): nat {
    Pending(st.me) + Pending(st.other) + Weights(st.out) + Weights(st.inc)
  }

  lemma {:induction false} WeightsAppend(q: seq<Packet>, r: seq<Packet>)
    ensures Weights(q + r) == Weights(q) + Weights(r)
  {
    if q == [] {
      assert q + r == r;
    } else {
      WeightsAppend(q[1..], r);
      assert (q + r)[1..] == q[1..] + r;
    }
  }

  lemma WeightsOfOne(sent: seq<Packet>)
    ensures sent == [] ==> Weights(sent) == 0
    ensures |sent| == 1 ==> Weights(sent) == Weight(sent[0])
  {
    if |sent| == 1 {
      assert sent[1..] == [];
    }
  }

  lemma ControlLightens(e: Endpoint, p: Packet, rc: WriteRc, service: bool)
    requires Own(e) && !p.Wrte?
    ensures var (e', sent) := Receive(e, p, rc, service);
      |sent| <= 1 && Pending(e') + Weights(sent) < Pending(e) + Weight(p)
  {
    WeightsOfOne(Receive(e, p, rc, service).1);
  }

  lemma WrteLightens(e: Endpoint, data: seq<byte>, rc: WriteRc)
    requires Own(e) && e.place.Live? && ValidRc(e.s.queue + data, rc)
    ensures var (e', sent) := FlushIncoming(e.(s := e.s.(queue := e.s.queue + data)), rc);
      |sent| <= 1 && Pending(e') + Weights(sent) < Pending(e) + 3 * |data| + 3
  {
    var q := e.(s := e.s.(queue := e.s.queue + data));
    FlushKeeps(q, rc);
    WeightsOfOne(FlushIncoming(q, rc).1);
  }

  lemma ReceiveLightens(e: Endpoint, p: Packet, rc: WriteRc, service: bool)
    requires Own(e) && (p.Wrte? ==> ValidRc(e.s.queue + p.data, rc))
    ensures var (e', sent) := Receive(e, p, rc, service);
      |sent| <= 1 && Pending(e') + Weights(sent) < Pending(e) + Weight(p)
  {
    if !p.Wrte? {
      ControlLightens(e, p, rc, service);
    } else if e.place.Live? {
      WrteLightens(e, p.data, rc);
    }
  }

  lemma FlushLightens(e: Endpoint, rc: WriteRc)
    requires Own(e) && e.s.wr && ValidRc(e.s.queue, rc) && !rc.WouldBlock?
    ensures var (e', sent) := FlushIncoming(e, rc);
      |sent| <= 1 && Pending(e') + Weights(sent) < Pending(e)
  {
    var (e', sent) := FlushIncoming(e, rc);
    FlushKeeps(e, rc);
    WeightsOfOne(sent);
    assert rc.Accepted? ==> |e'.s.queue| < |e.s.queue| && e'.s.writeError == e.s.writeError;
    assert rc.Failed? ==> |e'.s.queue| == |e.s.queue| && e'.s.writeError && !e.s.writeError;
  }

  lemma ProgressLightens(st: State, ev: Event)
    requires Inv(st) && Enabled(st, ev) && Progress(ev)
    ensures Measure(Step(st, ev)) < Measure(st)
  {
    var (me', sent) := Act(st, ev);
    WeightsAppend(st.out, sent);
    if ev.Deliver? {
      ReceiveLightens(st.me, st.inc[0], ev.rc, ev.service);
    } else {
      FlushLightens(st.me, ev.rc);
    }
  }

  predicate IsProgressRun(st: State, run: seq<Move>)
    decreases |run|
  {
    run == [] || (CanMove(st, run[0]) && Progress(run[0].ev) && IsProgressRun(DoMove(st, run[0]), run[1..]))
  }

  /** However deliveries and writes are scheduled, they run out unless an fd gives new bytes to read. */
  lemma {:induction false} ProgressEnds(st: State, run: seq<Move>)
    requires Inv(st) && IsProgressRun(st, run)
    ensures |run| <= Measure(st)
    decreases |run|
  {
    if run != [] {
      var next := DoMove(st, run[0]);
      if run[0].second {
        StepInv(Flip(st), run[0].ev);
        ProgressLightens(Flip(st), run[0].ev);
      } else {
        StepInv(st, run[0].ev);
        ProgressLightens(st, run[0].ev);
      }
      ProgressEnds(next, run[1..]);
    }
  }

  /** No delivery and no write can happen. */
  predicate Stuck(st: State) {
    st.out == [] && st.inc == [] && !st.me.s.wr && !st.other.s.wr
  }

  lemma StuckMeansNoProgress(st: State)
    requires Inv(st)
    ensures Stuck(st) <==> !(exists m: Move :: CanMove(st, m) && Progress(m.ev))
  {
    if st.inc != [] {
      assert CanMove(st, Move(false, Deliver(WouldBlock, true)));
    } else if st.out != [] {
      assert CanMove(st, Move(true, Deliver(WouldBlock, true)));
    } else if st.me.s.wr {
      assert CanMove(st, Move(false, Writable(Failed)));
    } else if st.other.s.wr {
      assert CanMove(st, Move(true, Writable(Failed)));
    }
  }

  /** What a settled stream looks like: open on both sides with both fds being read, or closed on both sides. */
  predicate AtRest(st: State) {
    && !st.me.place.Lingering?
    && (st.me.place.Live? <==> st.other.place.Live?)
    && (st.me.place.Live? ==>
          && st.me.peer == st.other.id
          && (st.me.s.queue == [] || st.me.s.writeError)
          && (!st.other.s.writeError ==> st.me.s.rd))
  }

  /** The two endpoints never both wait forever: once nothing is under way, both read their fds again or both have
      closed, and no socket is left half open. */
  lemma StuckIsAtRest(st: State, run: seq<Move>)
    requires Initial(st) && IsRun(st, run) && Stuck(After(st, run))
    ensures AtRest(After(st, run)) && AtRest(Flip(After(st, run)))
  {
    InitialInv(st);
    RunInv(st, run);
  }
}
