/** Two processes with a socket each and the two channels between them: whatever happens to them is a run of Stream, so
    that the theorems about runs hold of the sockets. */
module StreamSystem {
  import opened Bytes
  import opened LocalSocket
  import opened SocketGraph
  import opened Stream
  import opened StreamInvariant
  import opened StreamPreservation
  import opened StreamSocket
  import StreamSession
  import StreamTheorems

  /** Something that happens at the first or the second end. */
  datatype Turn = Turn(second: bool, h: Happening)

  /** A packet comes in from the head of the channel. */
  predicate CanHappen(st: State, h: Happening) {
    Can(st.me, h) && (h.Incoming? ==> st.inc != [] && st.inc[0] == h.p)
  }

  /** The state when it has happened: the channel gets what the socket has sent. */
  function Happened(st: State, h: Happening): State
    requires CanHappen(st, h)
  {
    var (e, packets) := Does(st.me, h);
    State(e, st.other, st.out + packets, if h.Incoming? then st.inc[1..] else st.inc)
  }

  function Seen(st: State, second: bool): State {
    if second then Flip(st) else st
  }

  predicate CanTurn(st: State, t: Turn) {
    CanHappen(Seen(st, t.second), t.h)
  }

  function Turned(st: State, t: Turn): State
    requires CanTurn(st, t)
  {
    Seen(Happened(Seen(st, t.second), t.h), t.second)
  }

  predicate CanTurnAll(st: State, turns: seq<Turn>)
    decreases |turns|
  {
    turns == [] || (CanTurn(st, turns[0]) && CanTurnAll(Turned(st, turns[0]), turns[1..]))
  }

  function TurnedAll(st: State, turns: seq<Turn>): State
    requires CanTurnAll(st, turns)
    decreases |turns|
  {
    if turns == [] then st else TurnedAll(Turned(st, turns[0]), turns[1..])
  }

  function AsMove(st: State, t: Turn): Move
    requires CanTurn(st, t)
  {
    Move(t.second, AsEvent(t.h, Seen(st, t.second).me.max))
  }

  function AsRun(st: State, turns: seq<Turn>): seq<Move>
    requires CanTurnAll(st, turns)
    decreases |turns|
  {
    if turns == [] then [] else [AsMove(st, turns[0])] + AsRun(Turned(st, turns[0]), turns[1..])
  }

  lemma TurnIsMove(st: State, t: Turn)
    requires CanTurn(st, t)
    ensures CanMove(st, AsMove(st, t)) && DoMove(st, AsMove(st, t)) == Turned(st, t)
  {
    DoesIsStep(Seen(st, t.second), t.h);
  }

  /** The turns are a run of Stream. */
  lemma {:induction false} TurnsAreRun(st: State, turns: seq<Turn>)
    requires CanTurnAll(st, turns)
    ensures IsRun(st, AsRun(st, turns)) && After(st, AsRun(st, turns)) == TurnedAll(st, turns)
    decreases |turns|
  {
    if turns != [] {
      TurnIsMove(st, turns[0]);
      TurnsAreRun(Turned(st, turns[0]), turns[1..]);
      assert AsRun(st, turns)[1..] == AsRun(Turned(st, turns[0]), turns[1..]);
    }
  }

  lemma TurnInv(st: State, t: Turn)
    requires Inv(st) && CanTurn(st, t)
    ensures Inv(Turned(st, t))
  {
    DoesIsStep(Seen(st, t.second), t.h);
    StepInv(Seen(st, t.second), AsEvent(t.h, Seen(st, t.second).me.max));
  }

  /** A read that the loop over a fd can have made: with a full payload it does not come to the end of the file. */
  predicate Readings(st: State, m: Move) {
    m.ev.Readable? && m.ev.eof ==> |m.ev.data| < Seen(st, m.second).me.max
  }

  predicate AllReadings(st: State, run: seq<Move>)
    requires IsRun(st, run)
    decreases |run|
  {
    run == [] || (Readings(st, run[0]) && AllReadings(DoMove(st, run[0]), run[1..]))
  }

  lemma MoveHasTurn(st: State, m: Move) returns (t: Turn)
    requires Inv(st) && CanMove(st, m) && Readings(st, m)
    ensures CanTurn(st, t) && AsMove(st, t) == m
  {
    var seen := Seen(st, m.second);
    match m.ev
    case Connect => t := Turn(m.second, Dial);
    case Deliver(rc, service) =>
      DeliveryCan(seen, rc, service);
      t := Turn(m.second, Incoming(seen.inc[0], rc, service));
    case Readable(data, eof) =>
      var got := ReadsThatGive(data, eof, seen.me.max);
      t := Turn(m.second, FdReadable(got));
    case Writable(rc) => t := Turn(m.second, FdWritable(rc));
    case Shut => t := Turn(m.second, Close);
  }

  lemma MoveIsTurn(st: State, m: Move) returns (t: Turn)
    requires Inv(st) && CanMove(st, m) && Readings(st, m)
    ensures CanTurn(st, t) && AsMove(st, t) == m && Turned(st, t) == DoMove(st, m) && Inv(DoMove(st, m))
  {
    t := MoveHasTurn(st, m);
    TurnIsMove(st, t);
    TurnInv(st, t);
  }

  lemma TurnsCons(st: State, t: Turn, rest: seq<Turn>)
    requires CanTurn(st, t) && CanTurnAll(Turned(st, t), rest)
    ensures CanTurnAll(st, [t] + rest) && AsRun(st, [t] + rest) == [AsMove(st, t)] + AsRun(Turned(st, t), rest)
  {
    assert ([t] + rest)[1..] == rest;
  }

  /** And every run of Stream with such reads is made by some turns. */
  lemma {:induction false} RunsAreTurns(st: State, run: seq<Move>) returns (turns: seq<Turn>)
    requires Inv(st) && IsRun(st, run) && AllReadings(st, run)
    ensures CanTurnAll(st, turns) && AsRun(st, turns) == run
    decreases |run|
  {
    if run == [] {
      turns := [];
    } else {
      var t := MoveIsTurn(st, run[0]);
      var rest := RunsAreTurns(DoMove(st, run[0]), run[1..]);
      TurnsCons(st, t, rest);
      turns := [t] + rest;
    }
  }

  /** What the two ends may change. */
  ghost function Footprint(a: End): set<object>
    reads a, a.sockets
  {
    {a, a.sockets} + a.sockets.all
  }

  /** Something happens at `a` while `b` is left alone. */
  method HappensAt(a: End, b: End, h: Happening)
    requires a.Valid() && Can(a.e, h) && b.Valid() && Footprint(a) !! Footprint(b)
    modifies Footprint(a)
    ensures a.Valid() && b.Valid() && Footprint(a) !! Footprint(b) && fresh(Footprint(a) - old(Footprint(a)))
    ensures a.e == Does(old(a.e), h).0
    ensures Sends(old(a.sockets.sent), a.sockets.sent, a.transport, a.e.delayed, Does(old(a.e), h).1)
  {
    a.Happens(h);
  }

  /** The packets that the turns deliver to one of the ends. */
  function Delivered(turns: seq<Turn>, second: bool): seq<Packet> {
    if turns == [] then []
    else
      var last := turns[|turns| - 1];
      Delivered(turns[..|turns| - 1], second)
      + if last.second == second && last.h.Incoming? then [last.h.p] else []
  }

  lemma DeliveredSnoc(turns: seq<Turn>, t: Turn, second: bool)
    ensures Delivered(turns + [t], second)
         == Delivered(turns, second) + if t.second == second && t.h.Incoming? then [t.h.p] else []
  {
    assert (turns + [t])[..|turns|] == turns;
  }

  lemma SendsThen(before: seq<Sent>, mid: seq<Sent>, after: seq<Sent>, t: nat, delayed: bool, p: seq<Packet>,
                  q: seq<Packet>)
    requires Sends(before, mid, t, delayed, p) && Sends(mid, after, t, delayed, q)
    ensures Sends(before, after, t, delayed, p + q)
  {
    assert after[|before|..] == mid[|before|..] + after[|mid|..];
    assert AllOnWire(after[|before|..], delayed)
        == AllOnWire(mid[|before|..], delayed) + AllOnWire(after[|mid|..], delayed);
  }

  /** All that one end has sent was delivered in order to the end `second` or is in the channel to it. */
  ghost predicate Carried(before: seq<Sent>, x: End, done: seq<Turn>, second: bool, channel: seq<Packet>)
    reads x, x.sockets
  {
    Sends(before, x.sockets.sent, x.transport, x.delayed, Delivered(done, second) + channel)
  }

  /** The channel from an end where something happens. */
  lemma CarriesMore(before: seq<Sent>, mid: seq<Sent>, x: End, done: seq<Turn>, t: Turn, channel: seq<Packet>,
                    packets: seq<Packet>)
    requires Sends(before, mid, x.transport, x.delayed, Delivered(done, !t.second) + channel)
    requires Sends(mid, x.sockets.sent, x.transport, x.delayed, packets)
    ensures Carried(before, x, done + [t], !t.second, channel + packets)
  {
    DeliveredSnoc(done, t, !t.second);
    var delivered := Delivered(done, !t.second);
    SendsThen(before, mid, x.sockets.sent, x.transport, x.delayed, delivered + channel, packets);
    assert delivered + channel + packets == delivered + (channel + packets);
    assert delivered + [] == delivered;
  }

  /** The channel to it. */
  lemma CarriesLess(before: seq<Sent>, x: End, done: seq<Turn>, t: Turn, channel: seq<Packet>)
    requires Carried(before, x, done, t.second, channel)
    requires t.h.Incoming? ==> channel != [] && channel[0] == t.h.p
    ensures Carried(before, x, done + [t], t.second, if t.h.Incoming? then channel[1..] else channel)
  {
    DeliveredSnoc(done, t, t.second);
    var delivered := Delivered(done, t.second);
    if t.h.Incoming? {
      assert delivered + [channel[0]] + channel[1..] == delivered + channel;
    } else {
      assert delivered + [] == delivered;
    }
  }

  /** The two sockets, as `x` sees them, after some turns. */
  ghost predicate Together(x: End, y: End, second: bool, st: State, done: seq<Turn>, sentX: seq<Sent>, sentY: seq<Sent>)
    reads Footprint(x), Footprint(y)
  {
    && x.Valid() && y.Valid() && Footprint(x) !! Footprint(y)
    && Inv(st) && st.me == x.e && st.other == y.e
    && Carried(sentX, x, done, !second, st.out) && Carried(sentY, y, done, second, st.inc)
  }

  method TurnAt(x: End, y: End, t: Turn, ghost st: State, ghost done: seq<Turn>, ghost sentX: seq<Sent>,
                ghost sentY: seq<Sent>)
    requires Together(x, y, t.second, st, done, sentX, sentY) && CanHappen(st, t.h)
    modifies Footprint(x)
    ensures Together(x, y, t.second, Happened(st, t.h), done + [t], sentX, sentY) == true
    ensures fresh(Footprint(x) - old(Footprint(x)))
  {
    ghost var mid := x.sockets.sent;
    TurnInv(st, Turn(false, t.h));
    HappensAt(x, y, t.h);
    CarriesMore(sentX, mid, x, done, t, st.out, Does(st.me, t.h).1);
    CarriesLess(sentY, y, done, t, st.inc);
  }

  lemma TogetherFlips(x: End, y: End, second: bool, st: State, done: seq<Turn>, sentX: seq<Sent>, sentY: seq<Sent>)
    requires Together(x, y, second, st, done, sentX, sentY)
    ensures Together(y, x, !second, Flip(st), done, sentY, sentX) == true
  {
  }

  method OneTurn(a: End, b: End, t: Turn, ghost st: State, ghost done: seq<Turn>, ghost sentA: seq<Sent>,
                 ghost sentB: seq<Sent>)
    requires Together(a, b, false, st, done, sentA, sentB) && CanTurn(st, t)
    modifies Footprint(a), Footprint(b)
    ensures Together(a, b, false, Turned(st, t), done + [t], sentA, sentB) == true
    ensures fresh(Footprint(a) - old(Footprint(a))) && fresh(Footprint(b) - old(Footprint(b)))
  {
    if t.second {
      TogetherFlips(a, b, false, st, done, sentA, sentB);
      TurnAt(b, a, t, Flip(st), done, sentB, sentA);
      TogetherFlips(b, a, true, Happened(Flip(st), t.h), done + [t], sentB, sentA);
    } else {
      TurnAt(a, b, t, st, done, sentA, sentB);
    }
  }

  lemma Regroup(done: seq<Turn>, turns: seq<Turn>)
    ensures if turns == [] then done + turns == done else done + [turns[0]] + turns[1..] == done + turns
  {
  }

  method TurnsFrom(a: End, b: End, turns: seq<Turn>, ghost st: State, ghost done: seq<Turn>, ghost sentA: seq<Sent>,
                   ghost sentB: seq<Sent>)
    requires Together(a, b, false, st, done, sentA, sentB) && CanTurnAll(st, turns)
    modifies Footprint(a), Footprint(b)
    ensures Together(a, b, false, TurnedAll(st, turns), done + turns, sentA, sentB) == true
    decreases |turns|
  {
    Regroup(done, turns);
    if turns != [] {
      OneTurn(a, b, turns[0], st, done, sentA, sentB);
      TurnsFrom(a, b, turns[1..], Turned(st, turns[0]), done + [turns[0]], sentA, sentB);
    }
  }

  lemma AtStart(a: End, b: End)
    requires a.Valid() && b.Valid() && Footprint(a) !! Footprint(b) && Initial(State(a.e, b.e, [], []))
    ensures Together(a, b, false, State(a.e, b.e, [], []), [], a.sockets.sent, b.sockets.sent) == true
  {
    InitialInv(State(a.e, b.e, [], []));
    SendsNothing(a.sockets.sent, a.transport, a.delayed);
    SendsNothing(b.sockets.sent, b.transport, b.delayed);
    assert Delivered([], false) == Delivered([], true) == [];
  }

  /** Any turns of two sockets that start a stream: they are a run of Stream, whose two endpoints are what the sockets
      have become, and whose channels hold what they have sent and not yet got. */
  method Turns(a: End, b: End, turns: seq<Turn>) returns (ghost now: State)
    requires a.Valid() && b.Valid() && Footprint(a) !! Footprint(b)
    requires Initial(State(a.e, b.e, [], [])) && CanTurnAll(State(a.e, b.e, [], []), turns)
    modifies Footprint(a), Footprint(b)
    ensures Together(a, b, false, now, turns, old(a.sockets.sent), old(b.sockets.sent)) == true
    ensures var start := State(old(a.e), old(b.e), [], []);
      var run := AsRun(start, turns);
      IsRun(start, run) == true && now == After(start, run)
  {
    ghost var start := State(a.e, b.e, [], []);
    AtStart(a, b);
    TurnsAreRun(start, turns);
    assert [] + turns == turns;
    TurnsFrom(a, b, turns, start, [], a.sockets.sent, b.sockets.sent);
    now := TurnedAll(start, turns);
  }

  /** The OPEN and the OKAY that opens a stream, as they come in. */
  function OpeningTurns(id: nat, other: nat, delayed: bool): seq<Turn> {
    var open := Packet.Open(id, if delayed then 32 * 1024 * 1024 else 0);
    var okay := Packet.Okay(other, id, if delayed then Some(32 * 1024 * 1024) else None);
    [Turn(false, Dial), Turn(true, Incoming(open, WouldBlock, true)), Turn(false, Incoming(okay, WouldBlock, true))]
  }

  lemma OpeningIsRun(st: State)
    requires Initial(st) && st.me.delayed == st.other.delayed
    ensures var turns := OpeningTurns(st.me.id, st.other.id, st.me.delayed);
      CanTurnAll(st, turns) && AsRun(st, turns) == StreamSession.Opening(true)
  {
    var turns := OpeningTurns(st.me.id, st.other.id, st.me.delayed);
    var st1 := Turned(st, turns[0]);
    var st2 := Turned(st1, turns[1]);
    TurnsCons(st2, turns[2], []);
    TurnsCons(st1, turns[1], [turns[2]]);
    TurnsCons(st, turns[0], [turns[1], turns[2]]);
  }

  /** The socket is on its list and linked to a remote one of this id; it reads its fd, and with delayed acks it has all
      of its credit. */
  ghost predicate IsOpen(x: End, other: nat)
    requires x.Valid()
    reads x, x.sockets, x.sockets.all
  {
    && x.socket in x.sockets.live && x.socket.id == x.id && x.socket.transport == x.transport
    && x.socket.s == StreamSession.Ready(x.delayed) && x.socket.peer != null
    && x.socket.peer.kind == RemoteKind && x.socket.peer.id == other && x.socket.peer.transport == x.transport
  }

  lemma DeliveredOfThree(t: Turn, t': Turn, t'': Turn, second: bool)
    ensures Delivered([t, t', t''], second) == Delivered([t, t'], second) + Delivered([t''], second)
    ensures Delivered([t, t'], second) == Delivered([t], second) + Delivered([t'], second)
    ensures Delivered([t], second) == if t.second == second && t.h.Incoming? then [t.h.p] else []
  {
    DeliveredSnoc([], t, second);
    DeliveredSnoc([], t', second);
    DeliveredSnoc([], t'', second);
    DeliveredSnoc([t], t', second);
    DeliveredSnoc([t, t'], t'', second);
    assert [t] + [t'] == [t, t'] && [t, t'] + [t''] == [t, t', t''];
    assert [] + [t] == [t] && [] + [t'] == [t'] && [] + [t''] == [t''];
  }

  lemma OpeningDelivers(id: nat, other: nat, delayed: bool, second: bool)
    ensures var turns := OpeningTurns(id, other, delayed);
      Delivered(turns, second) == [if second then turns[1].h.p else turns[2].h.p]
  {
    var turns := OpeningTurns(id, other, delayed);
    DeliveredOfThree(turns[0], turns[1], turns[2], second);
    DeliveredOfThree(turns[1], turns[1], turns[2], second);
    DeliveredOfThree(turns[2], turns[1], turns[2], second);
  }

  /** In either mode: after a dial, an OPEN and an OKAY both sockets are open. */
  method OpenBoth(a: End, b: End)
    requires a.Valid() && b.Valid() && Footprint(a) !! Footprint(b)
    requires Initial(State(a.e, b.e, [], [])) && a.delayed == b.delayed
    modifies Footprint(a), Footprint(b)
    ensures a.Valid() && b.Valid() && Footprint(a) !! Footprint(b)
    ensures IsOpen(a, b.id) && IsOpen(b, a.id)
    ensures var turns := OpeningTurns(a.id, b.id, a.delayed);
      && Sends(old(a.sockets.sent), a.sockets.sent, a.transport, a.delayed, [turns[1].h.p])
      && Sends(old(b.sockets.sent), b.sockets.sent, b.transport, b.delayed, [turns[2].h.p])
  {
    ghost var start := State(a.e, b.e, [], []);
    OpeningIsRun(start);
    OpeningDelivers(a.id, b.id, a.delayed, false);
    OpeningDelivers(a.id, b.id, a.delayed, true);
    StreamSession.Opens(start);
    var now := Turns(a, b, OpeningTurns(a.id, b.id, a.delayed));
  }

  /** For the sockets themselves: when nothing is under way any more, both are on their lists and read their fds (write
      errors aside), or neither is on a list. */
  lemma SocketsAtRest(a: End, b: End, start: State, turns: seq<Turn>, now: State, sentA: seq<Sent>, sentB: seq<Sent>)
    requires Initial(start) && CanTurnAll(start, turns) && now == TurnedAll(start, turns)
    requires Together(a, b, false, now, turns, sentA, sentB) && StreamTheorems.Stuck(now)
    ensures a.socket in a.sockets.live <==> b.socket in b.sockets.live
    ensures a.socket in a.sockets.live ==>
              (a.socket.s.rd || b.socket.s.writeError) && (b.socket.s.rd || a.socket.s.writeError)
    ensures a.socket !in a.sockets.closing && b.socket !in b.sockets.closing
  {
    TurnsAreRun(start, turns);
    StreamTheorems.StuckIsAtRest(start, AsRun(start, turns));
  }
}
