/** Two local sockets that are each other's peers and have no transport, as a smart socket links them for a host
    service: local_socket_flush_incoming calls no ready function for them, so that nothing arms FDE_READ again. */
module LocalPair {
  import opened Bytes
  import opened LocalSocket

  datatype Pair = Pair(a: Local, b: Local) {
    function Side(first: bool): Local {
      if first then a else b
    }

    function Set(first: bool, s: Local): Pair {
      if first then Pair(s, b) else Pair(a, s)
    }
  }

  /** The fd events of one of the two sockets: FDE_READ, with what adb_read returns and what the peer's fd takes, and
      FDE_WRITE. */
  datatype PairEvent =
    | Read(first: bool, got: seq<ReadRc>, room: nat, rc: WriteRc)
    | Write(first: bool, rc: WriteRc)

  /** The event is armed, and no end of file closes the pair. */
  predicate Enabled(p: Pair, e: PairEvent) {
    match e
    case Read(first, got, room, rc) =>
      && p.Side(first).rd && LegalReads(got, room) && !Drain(got, room).1
      && ValidRc(p.Side(!first).queue + Drain(got, room).0, rc)
    case Write(first, rc) => p.Side(first).wr && ValidRc(p.Side(first).queue, rc)
  }

  function Pass(p: Pair, first: bool, data: seq<byte>, rc: WriteRc): Pair
    requires data != [] ==> ValidRc(p.Side(!first).queue + data, rc)
  {
    if data == [] then p
    else
      var peer := Given(p.Side(!first), data, false, rc);
      p.Set(!first, peer).Set(first, Spent(p.Side(first), |data|, if FdFull(peer) then 1 else 0))
  }

  function Step(p: Pair, e: PairEvent): Pair
    requires Enabled(p, e)
  {
    match e
    case Read(first, got, room, rc) => Pass(p, first, Drain(got, room).0, rc)
    case Write(first, rc) => p.Set(first, Flush(p.Side(first), false, rc).s)
  }

  predicate IsRun(p: Pair, events: seq<PairEvent>)
    decreases |events|
  {
    events == [] || (Enabled(p, events[0]) && IsRun(Step(p, events[0]), events[1..]))
  }

  function After(p: Pair, events: seq<PairEvent>): Pair
    requires IsRun(p, events)
    decreases |events|
  {
    if events == [] then p else After(Step(p, events[0]), events[1..])
  }

  lemma StepStaysOff(p: Pair, e: PairEvent, first: bool)
    requires Enabled(p, e) && !p.Side(first).rd
    ensures !Step(p, e).Side(first).rd
  {
  }

  /** A socket of the pair that has stopped reading never reads again. */
  lemma {:induction false} StaysOff(p: Pair, events: seq<PairEvent>, first: bool)
    requires IsRun(p, events) && !p.Side(first).rd
    ensures !After(p, events).Side(first).rd
    decreases |events|
  {
    if events != [] {
      StepStaysOff(p, events[0], first);
      StaysOff(Step(p, events[0]), events[1..], first);
    }
  }

  ghost predicate NeverReads(p: Pair, first: bool) {
    forall events | IsRun(p, events) :: !After(p, events).Side(first).rd
  }

  /** The peer still has bytes to write, and no credit is left. */
  predicate Blocked(p: Pair, first: bool) {
    FdFull(p.Side(!first)) && (p.Side(first).credit.Some? ==> p.Side(first).credit.value <= 0)
  }

  /** The wake-up is lost, in every run, exactly if the peer's fd did not take all that a read gave it (and there is no
      credit left that would keep the socket reading). */
  lemma LosesWakeupIff(p: Pair, e: PairEvent)
    requires Enabled(p, e) && e.Read? && Drain(e.got, e.room).0 != []
    ensures NeverReads(Step(p, e), e.first) <==> Blocked(Step(p, e), e.first)
  {
    var q := Step(p, e);
    assert q.Side(e.first).rd <==> !Blocked(q, e.first);
    if q.Side(e.first).rd {
      assert IsRun(q, []) && After(q, []) == q;
    } else {
      forall events | IsRun(q, events) ensures !After(q, events).Side(e.first).rd {
        StaysOff(q, events, e.first);
      }
    }
  }

  /** It is lost for good: once the peer's fd has taken the rest, neither end has an event that could move a byte. */
  lemma DrainedButOff(p: Pair, first: bool)
    requires !p.Side(first).rd && p.Side(!first).wr && FdFull(p.Side(!first)) && !p.Side(!first).closing
    ensures var e := Write(!first, Accepted(|p.Side(!first).queue|));
      && Enabled(p, e)
      && var q := Step(p, e); q.Side(!first).queue == [] && !q.Side(!first).wr && !q.Side(first).rd
  {
  }

  /** One byte, which the peer's fd takes only at the second attempt. */
  lemma LosesWakeup()
    ensures var p := Pair(FRESH.(rd := true), FRESH.(rd := true));
      var events := [Read(true, [Got([7]), Again], 2, WouldBlock), Write(false, Accepted(1))];
      IsRun(p, events) && After(p, events) == p.(a := FRESH)
  {
    var p := Pair(FRESH.(rd := true), FRESH.(rd := true));
    var e, f := Read(true, [Got([7]), Again], 2, WouldBlock), Write(false, Accepted(1));
    assert [Got([7]), Again][1..] == [Again] && [7] + [] == [7];
    assert Drain(e.got, e.room) == ([7], false);
    var q := Pair(FRESH, FRESH.(queue := [7], rd := true, wr := true));
    assert Enabled(p, e) && Step(p, e) == q;
    assert Enabled(q, f) && Step(q, f) == p.(a := FRESH);
    assert [e, f][1..] == [f] && [f][1..] == [];
  }
}
