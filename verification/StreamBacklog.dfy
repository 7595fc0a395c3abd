/** Without delayed acks nothing bounds the receiver's queue: every partial write that leaves less than a full packet
    queued asks for more, so that OKAYs pile up on the way, and each of them lets the sender send again. */
module StreamBacklog {
  import opened Bytes
  import opened LocalSocket
  import opened Stream
  import opened StreamInvariant
  import opened StreamPreservation
  import opened StreamSession

  const TWO: seq<byte> := [0, 0]

  /** An open stream without delayed acks, with `k` OKAYs on the way to the sender and `n` bytes queued at the receiver.
      The sender reads its fd if `rd`. */
  predicate Pumping(st: State, rd: bool, k: nat, n: nat) {
    && st.me.place.Live? && st.other.place.Live? && st.me.id != 0 && st.other.id != 0
    && st.me.peer == st.other.id && st.other.peer == st.me.id
    && !st.me.delayed && !st.other.delayed && st.me.max >= 2
    && st.me.s == FRESH.(rd := rd)
    && st.other.s == FRESH.(rd := true, queue := st.other.s.queue, wr := n > 0) && |st.other.s.queue| == n
    && st.out == [] && st.inc == seq(k, _ => Okay(st.other.id, st.me.id, None))
  }

  /** The sender reads two bytes, which the receiver's fd does not take. */
  lemma SendTwo(st: State, k: nat, n: nat) returns (run: seq<Move>)
    requires Pumping(st, true, k, n)
    ensures IsRun(st, run) && Pumping(After(st, run), false, k, n + 2)
  {
    var m, m' := Move(false, Readable(TWO, false)), Move(true, Deliver(WouldBlock, true));
    run := [m, m'];
    var mid := State(st.me.(got := st.me.got + TWO, s := FRESH), st.other, [Wrte(st.me.id, st.other.id, TWO)], st.inc);
    assert CanMove(st, m) && DoMove(st, m) == mid;
    assert CanMove(mid, m');
    TwoMoves(st, m, m');
  }

  /** The receiver's fd takes one byte, and the receiver asks for more. */
  lemma WriteOne(st: State, k: nat, n: nat) returns (run: seq<Move>)
    requires Pumping(st, false, k, n) && 0 < n <= MAX_PAYLOAD
    ensures IsRun(st, run) && Pumping(After(st, run), false, k + 1, n - 1)
  {
    var m := Move(true, Writable(Accepted(1)));
    OneMove(st, m);
    run := [m];
  }

  lemma TakeOkay(st: State, k: nat, n: nat) returns (run: seq<Move>)
    requires Pumping(st, false, k, n) && k > 0
    ensures IsRun(st, run) && Pumping(After(st, run), true, k - 1, n)
  {
    var m := Move(false, Deliver(WouldBlock, true));
    OneMove(st, m);
    run := [m];
  }

  /** Two bytes, written one at a time, are worth two OKAYs: one more than they cost. */
  lemma PileUp(st: State, k: nat) returns (run: seq<Move>)
    requires Pumping(st, true, k, 0)
    ensures IsRun(st, run) && Pumping(After(st, run), true, k + 1, 0)
  {
    run := SendTwo(st, k, 0);
    var more := WriteOne(After(st, run), k, 2);
    RunAppend(st, run, more);
    run := run + more;
    more := WriteOne(After(st, run), k + 1, 1);
    RunAppend(st, run, more);
    run := run + more;
    more := TakeOkay(After(st, run), k + 2, 0);
    RunAppend(st, run, more);
    run := run + more;
  }

  lemma {:induction false} PileUpTo(st: State, k: nat) returns (run: seq<Move>)
    requires Pumping(st, true, 0, 0)
    ensures IsRun(st, run) && Pumping(After(st, run), true, k, 0)
  {
    if k == 0 {
      run := [];
    } else {
      run := PileUpTo(st, k - 1);
      var more := PileUp(After(st, run), k - 1);
      RunAppend(st, run, more);
      run := run + more;
    }
  }

  /** Each OKAY on the way lets two bytes more arrive, while the fd takes none. */
  lemma {:induction false} Fill(st: State, k: nat, n: nat) returns (run: seq<Move>)
    requires Pumping(st, true, k, n)
    ensures IsRun(st, run) && Pumping(After(st, run), true, 0, n + 2 * k)
    decreases k
  {
    if k == 0 {
      run := [];
    } else {
      run := SendTwo(st, k, n);
      var more := TakeOkay(After(st, run), k, n + 2);
      RunAppend(st, run, more);
      run := run + more;
      more := Fill(After(st, run), k - 1, n + 2);
      RunAppend(st, run, more);
      run := run + more;
    }
  }

  /** The stream as the sender at one end or the other sees it. */
  function Seen(st: State, second: bool): State {
    if second then Flip(st) else st
  }

  predicate Reaches(st: State, run: seq<Move>, second: bool, okays: nat, queued: nat) {
    && IsRun(st, run)
    && var now := Seen(After(st, run), second); |now.inc| >= okays && |now.other.s.queue| >= queued
  }

  /** The same run with the ends exchanged. */
  function Mirror(run: seq<Move>): (mirrored: seq<Move>)
    ensures |mirrored| == |run|
  {
    if run == [] then [] else [Move(!run[0].second, run[0].ev)] + Mirror(run[1..])
  }

  lemma {:induction false} MirrorRuns(st: State, run: seq<Move>)
    requires IsRun(st, run)
    ensures IsRun(Flip(st), Mirror(run)) && After(Flip(st), Mirror(run)) == Flip(After(st, run))
    decreases |run|
  {
    if run != [] {
      MirrorRuns(DoMove(st, run[0]), run[1..]);
      RunCons(Flip(st), Move(!run[0].second, run[0].ev), Mirror(run[1..]));
    }
  }

  lemma FromOpened(st: State, bound: nat) returns (piled: seq<Move>, filled: seq<Move>)
    requires Opened(st) && !st.me.delayed && st.me.max >= 2
    ensures Reaches(st, piled, false, bound, 0) && Reaches(st, filled, false, 0, bound)
  {
    piled := PileUpTo(st, bound);
    var more := Fill(After(st, piled), bound, 0);
    RunAppend(st, piled, more);
    filled := piled + more;
  }

  /** Whatever the bound, some run has that many OKAYs on the way at once, and some run that many bytes queued, at
      either end whose peer may send payloads of two bytes. */
  lemma QueueHasNoBound(st: State, second: bool, bound: nat)
    requires Initial(st) && !st.me.delayed && !st.other.delayed && Seen(st, second).me.max >= 2
    ensures (exists run :: Reaches(st, run, second, bound, 0)) && (exists run :: Reaches(st, run, second, 0, bound))
  {
    var run := Opening(true);
    Opens(st);
    var open := After(st, run);
    var piled, filled := FromOpened(Seen(open, second), bound);
    if second {
      MirrorRuns(Flip(open), piled);
      MirrorRuns(Flip(open), filled);
      piled, filled := Mirror(piled), Mirror(filled);
    }
    RunAppend(st, run, piled);
    RunAppend(st, run, filled);
    assert Reaches(st, run + piled, second, bound, 0) && Reaches(st, run + filled, second, 0, bound);
  }

  // ---- Payloads of one byte ----

  function Okays(q: seq<Packet>): nat {
    if q == [] then 0 else (if q[0].Okay? then 1 else 0) + Okays(q[1..])
  }

  function Payloads(q: seq<Packet>): nat {
    if q == [] then 0 else (if q[0].Wrte? then |q[0].data| else 0) + Payloads(q[1..])
  }

  lemma {:induction false} CountsAppend(q: seq<Packet>, r: seq<Packet>)
    ensures Okays(q + r) == Okays(q) + Okays(r) && Payloads(q + r) == Payloads(q) + Payloads(r)
  {
    if q == [] {
      assert q + r == r;
    } else {
      CountsAppend(q[1..], r);
      assert (q + r)[0] == q[0] && (q + r)[1..] == q[1..] + r;
    }
  }

  lemma CountsOne(p: Packet)
    ensures Okays([p]) == (if p.Okay? then 1 else 0) && Payloads([p]) == if p.Wrte? then |p.data| else 0
  {
    assert [p][1..] == [];
  }

  /** The bytes between the two fds, and what lets the sender send more. */
  function Backlog(st: State): nat {
    Payloads(st.out) + |st.other.s.queue| + Okays(st.inc) + if st.me.s.rd then 1 else 0
  }

  /** With payloads of one byte, it never grows once the stream is open. */
  predicate Scant(st: State) {
    && !st.me.delayed && !st.other.delayed && st.me.max <= 1
    && Backlog(st) <= if st.me.place.Absent? || st.other.place.Absent? then 0 else 1
  }

  lemma FlushCounts(e: Endpoint, rc: WriteRc)
    requires ValidRc(e.s.queue, rc) && e.s.credit.None? && (e.peer != 0 ==> !e.s.closing)
    ensures var (e', sent) := FlushIncoming(e, rc);
      && |e'.s.queue| + Okays(sent) <= |e.s.queue| && Payloads(sent) == 0 && (e'.s.rd ==> e.s.rd)
  {
    var sent := FlushIncoming(e, rc).1;
    if sent != [] {
      assert sent == [sent[0]];
      CountsOne(sent[0]);
    }
  }

  lemma FinishCounts(e: Endpoint, cause: Cause)
    ensures var (e', sent) := Finish(e, cause);
      Okays(sent) == 0 && Payloads(sent) == 0 && !e'.s.rd && e'.s.queue == e.s.queue && !e'.place.Absent?
  {
    var sent := Finish(e, cause).1;
    if sent != [] {
      CountsOne(sent[0]);
    }
  }

  /** A packet that is not an OPEN, at the end that sends the bytes. */
  lemma SenderCounts(e: Endpoint, p: Packet, rc: WriteRc, service: bool)
    requires Own(e) && !e.delayed && !p.Open? && (p.Wrte? ==> ValidRc(e.s.queue + p.data, rc))
    ensures var (e', sent) := Receive(e, p, rc, service);
      && Payloads(sent) == 0 && (e'.s.rd ==> e.s.rd || p.Okay?) && (e'.place.Absent? <==> e.place.Absent?)
  {
    var (e', sent) := Receive(e, p, rc, service);
    if p.Clse? && e' != e {
      FinishCounts(e, ByPeer);
    } else if p.Wrte? && e' != e {
      FlushCounts(e.(s := e.s.(queue := e.s.queue + p.data)), rc);
    } else if sent != [] {
      CountsOne(sent[0]);
    }
  }

  /** The same at the end that receives them. */
  lemma ReceiverCounts(e: Endpoint, p: Packet, rc: WriteRc, service: bool)
    requires Own(e) && !e.delayed && !p.Open? && (p.Wrte? ==> ValidRc(e.s.queue + p.data, rc))
    ensures var (e', sent) := Receive(e, p, rc, service);
      && |e'.s.queue| + Okays(sent) <= |e.s.queue| + (if p.Wrte? then |p.data| else 0)
      && (e'.place.Absent? <==> e.place.Absent?)
  {
    var (e', sent) := Receive(e, p, rc, service);
    if p.Clse? && e' != e {
      FinishCounts(e, ByPeer);
    } else if p.Wrte? && sent != [] {
      FlushCounts(e.(s := e.s.(queue := e.s.queue + p.data)), rc);
    } else if sent != [] {
      CountsOne(sent[0]);
    }
  }

  /** An OPEN, at either end: it comes first, and from an end that exists. */
  lemma OpenCounts(st: State, rc: WriteRc, service: bool)
    requires Inv(st) && st.inc != [] && st.inc[0].Open?
    ensures st.me.place.Absent? && st.me.s == FRESH && !st.other.place.Absent?
    ensures var (e', sent) := Receive(st.me, st.inc[0], rc, service);
      e'.s.queue == [] && Okays(sent) <= 1 && Payloads(sent) == 0 && (Okays(sent) == 1 <==> !e'.place.Absent?)
      && (e'.place.Absent? ==> !e'.s.rd)
  {
    LoadRest(st.inc, st.other, st.me);
    var sent := Receive(st.me, st.inc[0], rc, service).1;
    if sent != [] {
      CountsOne(sent[0]);
    }
  }

  lemma ReadCounts(e: Endpoint, data: seq<byte>, eof: bool)
    requires Own(e) && !e.delayed && e.s.rd && |data| <= e.max <= 1
    ensures var (e', sent) := FlushOutgoing(e, data, eof);
      Payloads(sent) + (if e'.s.rd then 1 else 0) <= 1 && !e.place.Absent? && !e'.place.Absent?
  {
    var (e1, sent1) := FlushOutgoing(e, data, false);
    ReadEffect(e, data);
    if data != [] {
      CountsOne(sent1[0]);
    }
    FinishCounts(e1, ByLocal);
    CountsAppend(sent1, Finish(e1, ByLocal).1);
    assert eof ==> FlushOutgoing(e, data, true).1 == sent1 + Finish(e1, ByLocal).1;
  }

  /** What a step makes of the counts, if `st.me` becomes `me'`, sends `sent` and leaves `rest` in its channel. */
  lemma Counts(st: State, me': Endpoint, sent: seq<Packet>, rest: seq<Packet>)
    ensures var next := State(me', st.other, st.out + sent, rest);
      && Backlog(next) == Payloads(st.out) + Payloads(sent) + |st.other.s.queue| + Okays(rest)
                          + (if me'.s.rd then 1 else 0)
      && Backlog(Flip(next)) == Payloads(rest) + |me'.s.queue| + Okays(st.out) + Okays(sent)
                                + (if st.other.s.rd then 1 else 0)
  {
    CountsAppend(st.out, sent);
  }

  predicate SameNature(e: Endpoint, e': Endpoint) {
    e'.delayed == e.delayed && e'.max == e.max
  }

  lemma ReceiveKeepsNature(e: Endpoint, p: Packet, rc: WriteRc, service: bool)
    requires p.Wrte? ==> ValidRc(e.s.queue + p.data, rc)
    ensures SameNature(e, Receive(e, p, rc, service).0)
  {
    if p.Wrte? {
      FlushKeeps(e.(s := e.s.(queue := e.s.queue + p.data)), rc);
    }
  }

  lemma KeepsNature(st: State, ev: Event)
    requires Enabled(st, ev)
    ensures SameNature(st.me, Act(st, ev).0)
  {
    match ev
    case Deliver(rc, service) => ReceiveKeepsNature(st.me, st.inc[0], rc, service);
    case Writable(rc) => FlushKeeps(st.me, rc);
    case _ =>
  }

  lemma SenderDelivers(st: State, rc: WriteRc, service: bool)
    requires Inv(st) && Scant(st) && Enabled(st, Deliver(rc, service))
    ensures Scant(Step(st, Deliver(rc, service)))
  {
    var (me', sent) := Receive(st.me, st.inc[0], rc, service);
    KeepsNature(st, Deliver(rc, service));
    Counts(st, me', sent, st.inc[1..]);
    if st.inc[0].Open? {
      OpenCounts(st, rc, service);
    } else {
      SenderCounts(st.me, st.inc[0], rc, service);
    }
  }

  lemma ReadOkays(e: Endpoint, data: seq<byte>, eof: bool)
    requires Own(e) && e.s.rd && |data| <= e.max
    ensures var (e', sent) := FlushOutgoing(e, data, eof);
      Okays(sent) == 0 && e'.s.queue == e.s.queue && !e.place.Absent? && !e'.place.Absent?
  {
    var (e1, sent1) := FlushOutgoing(e, data, false);
    ReadEffect(e, data);
    if data != [] {
      CountsOne(sent1[0]);
    }
    FinishCounts(e1, ByLocal);
    CountsAppend(sent1, Finish(e1, ByLocal).1);
    assert eof ==> FlushOutgoing(e, data, true).1 == sent1 + Finish(e1, ByLocal).1;
  }

  /** An event without a delivery: what it sends is what it stops being able to send. */
  lemma OwnCounts(e: Endpoint, st: State, ev: Event)
    requires e == st.me && Own(e) && !e.delayed && Enabled(st, ev) && !ev.Deliver?
    ensures var (e', sent) := Act(st, ev);
      && (e.max <= 1 ==> Payloads(sent) + (if e'.s.rd then 1 else 0) <= if e.s.rd then 1 else 0)
      && |e'.s.queue| + Okays(sent) <= |e.s.queue|
      && (if ev.Connect? then Payloads(sent) == 0 && !e'.s.rd
          else e'.place.Absent? <==> e.place.Absent?)
  {
    match ev
    case Connect => CountsOne(Act(st, ev).1[0]);
    case Readable(data, eof) =>
      ReadOkays(e, data, eof);
      if e.max <= 1 {
        ReadCounts(e, data, eof);
      }
    case Writable(rc) => FlushCounts(e, rc);
    case Shut => FinishCounts(e, ByLocal);
  }

  lemma SenderStep(st: State, ev: Event)
    requires Inv(st) && Scant(st) && Enabled(st, ev)
    ensures Scant(Step(st, ev))
  {
    if ev.Deliver? {
      SenderDelivers(st, ev.rc, ev.service);
    } else {
      var (me', sent) := Act(st, ev);
      KeepsNature(st, ev);
      Counts(st, me', sent, st.inc);
      OwnCounts(st.me, st, ev);
    }
  }

  lemma ReceiverDelivers(st: State, rc: WriteRc, service: bool)
    requires Inv(st) && Scant(Flip(st)) && Enabled(st, Deliver(rc, service))
    ensures Scant(Flip(Step(st, Deliver(rc, service))))
  {
    var (me', sent) := Receive(st.me, st.inc[0], rc, service);
    KeepsNature(st, Deliver(rc, service));
    Counts(st, me', sent, st.inc[1..]);
    if st.inc[0].Open? {
      OpenCounts(st, rc, service);
    } else {
      ReceiverCounts(st.me, st.inc[0], rc, service);
    }
  }

  /** A move of the receiving end. */
  lemma ReceiverStep(st: State, ev: Event)
    requires Inv(st) && Scant(Flip(st)) && Enabled(st, ev)
    ensures Scant(Flip(Step(st, ev)))
  {
    if ev.Deliver? {
      ReceiverDelivers(st, ev.rc, ev.service);
    } else {
      var (me', sent) := Act(st, ev);
      KeepsNature(st, ev);
      Counts(st, me', sent, st.inc);
      OwnCounts(st.me, st, ev);
    }
  }

  lemma {:induction false} RunStaysScant(st: State, run: seq<Move>)
    requires Inv(st) && Scant(st) && IsRun(st, run)
    ensures Scant(After(st, run))
    decreases |run|
  {
    if run != [] {
      if run[0].second {
        ReceiverStep(Flip(st), run[0].ev);
        StepInv(Flip(st), run[0].ev);
      } else {
        SenderStep(st, run[0].ev);
        StepInv(st, run[0].ev);
      }
      RunStaysScant(DoMove(st, run[0]), run[1..]);
    }
  }

  ghost predicate QueueBounded(st: State, second: bool, bound: nat) {
    forall run | IsRun(st, run) :: |Seen(After(st, run), second).other.s.queue| <= bound
  }

  lemma OneByteIsBounded(st: State, second: bool)
    requires Initial(st) && !st.me.delayed && !st.other.delayed && Seen(st, second).me.max < 2
    ensures QueueBounded(st, second, 1)
  {
    InitialInv(st);
    forall run | IsRun(st, run) ensures |Seen(After(st, run), second).other.s.queue| <= 1 {
      if second {
        MirrorRuns(st, run);
        RunStaysScant(Flip(st), Mirror(run));
      } else {
        RunStaysScant(st, run);
      }
    }
  }

  /** Without delayed acks, the queue at either end is bounded exactly if its peer's payloads are limited to one byte,
      and then by one. */
  lemma QueueIsBoundedIff(st: State, second: bool)
    requires Initial(st) && !st.me.delayed && !st.other.delayed
    ensures (exists bound :: QueueBounded(st, second, bound)) <==> Seen(st, second).me.max < 2
    ensures Seen(st, second).me.max < 2 ==> QueueBounded(st, second, 1)
  {
    if Seen(st, second).me.max < 2 {
      OneByteIsBounded(st, second);
    } else {
      forall bound: nat ensures !QueueBounded(st, second, bound) {
        QueueHasNoBound(st, second, bound + 1);
        var run :| Reaches(st, run, second, 0, bound + 1);
        assert |Seen(After(st, run), second).other.s.queue| > bound;
      }
    }
  }
}
