/** What a stream does from its OPEN to its CLSEs when nothing goes wrong: it opens at both ends, in either mode, moves
    bytes from one fd to the other and is again as it was, and closes. The end of each run is given in full. */
module StreamSession {
  import opened Bytes
  import opened LocalSocket
  import opened Stream

  lemma Regroup(a: seq<Move>, b: seq<Move>)
    requires a != []
    ensures a + b == [a[0]] + (a[1..] + b)
  {
  }

  lemma RunCons(st: State, m: Move, rest: seq<Move>)
    requires CanMove(st, m) == true && IsRun(DoMove(st, m), rest)
    ensures IsRun(st, [m] + rest) && After(st, [m] + rest) == After(DoMove(st, m), rest)
  {
    assert ([m] + rest)[1..] == rest;
  }

  /** One run after another. */
  lemma {:induction false} RunAppend(st: State, a: seq<Move>, b: seq<Move>)
    requires IsRun(st, a) && IsRun(After(st, a), b)
    ensures IsRun(st, a + b) && After(st, a + b) == After(After(st, a), b)
    decreases |a|
  {
    if a == [] {
      assert a + b == b;
    } else {
      var m, rest := a[0], a[1..];
      RunAppend(DoMove(st, m), rest, b);
      RunCons(st, m, rest + b);
      Regroup(a, b);
    }
  }

  lemma OneMove(st: State, m: Move)
    requires CanMove(st, m)
    ensures IsRun(st, [m]) && After(st, [m]) == DoMove(st, m)
  {
    assert [m][1..] == [];
  }

  lemma TwoMoves(st: State, m: Move, m': Move)
    requires CanMove(st, m) && CanMove(DoMove(st, m), m')
    ensures IsRun(st, [m, m']) && After(st, [m, m']) == DoMove(DoMove(st, m), m')
  {
    OneMove(DoMove(st, m), m');
    assert [m, m'][1..] == [m'];
  }

  lemma ThreeMoves(st: State, m: Move, m': Move, m'': Move)
    requires CanMove(st, m) && CanMove(DoMove(st, m), m') && CanMove(DoMove(DoMove(st, m), m'), m'')
    ensures IsRun(st, [m, m', m'']) && After(st, [m, m', m'']) == DoMove(DoMove(DoMove(st, m), m'), m'')
  {
    TwoMoves(DoMove(st, m), m', m'');
    assert [m, m', m''][1..] == [m', m''];
  }

  // ---- Opening ----

  /** A socket of an open stream when all is quiet: it reads its fd, and with delayed acks has all of its credit. */
  function Ready(delayed: bool): Local {
    Local(false, false, [], if delayed then Some(32 * 1024 * 1024) else None, true, false)
  }

  /** An open stream with nothing on the way. */
  predicate Opened(st: State) {
    && st.me.place.Live? && st.other.place.Live? && st.me.cause.NotClosed? && st.other.cause.NotClosed?
    && st.me.id != 0 && st.other.id != 0 && st.me.peer == st.other.id && st.other.peer == st.me.id
    && st.me.delayed == st.other.delayed && st.me.s == Ready(st.me.delayed) == st.other.s
    && st.out == [] && st.inc == []
  }

  /** The OPEN goes out, the other end makes its socket, and its OKAY comes back. */
  function Opening(service: bool): seq<Move> {
    [Move(false, Connect), Move(true, Deliver(WouldBlock, service)), Move(false, Deliver(WouldBlock, service))]
  }

  /** With both ends in the same mode, whichever it is, a service that exists gets an open stream. */
  lemma Opens(st: State)
    requires Initial(st) && st.me.delayed == st.other.delayed
    ensures IsRun(st, Opening(true)) && Opened(After(st, Opening(true)))
    ensures var s := Ready(st.me.delayed);
      After(st, Opening(true)) == State(st.me.(place := Live, peer := st.other.id, s := s),
                                        st.other.(place := Live, peer := st.me.id, s := s), [], [])
  {
    var run := Opening(true);
    ThreeMoves(st, run[0], run[1], run[2]);
  }

  /** Ends in different modes, or a service that does not exist, get none: the opener's socket is freed, the other end
      has never had one. */
  lemma Refuses(st: State, service: bool)
    requires Initial(st) && !(service && st.me.delayed == st.other.delayed)
    ensures IsRun(st, Opening(service))
    ensures var now := After(st, Opening(service));
      && now.me == st.me.(place := Gone, cause := ByPeer, s := now.me.s) && now.me.s.queue == []
      && now.other == st.other && now.out == [] && now.inc == []
  {
    var run := Opening(service);
    ThreeMoves(st, run[0], run[1], run[2]);
  }

  // ---- Packets that are for another socket ----

  /** Whether a packet that is not an OPEN names this socket and its peer. An OKAY that finds no peer sets it, and a
      CLSE need not name it. */
  predicate IsFor(p: Packet, e: Endpoint)
    requires !p.Open?
  {
    && e.place.Live? && p.arg1 == e.id
    && match p
       case Okay(arg0, _, _) => arg0 != 0 && (e.peer == 0 || e.peer == arg0)
       case Clse(arg0, _) => arg0 == 0 || (e.peer != 0 && e.peer == arg0)
       case Wrte(arg0, _, _) => e.peer != 0 && e.peer == arg0
  }

  /** Packets for other sockets change nothing, nor does an OPEN that does not name its sender; only an OKAY for a
      socket that is not there is answered, with a CLSE for its sender. */
  lemma Strays(e: Endpoint, p: Packet, rc: WriteRc, service: bool)
    requires e.id != 0 && (if p.Open? then p.arg0 == 0 else !IsFor(p, e))
    requires p.Wrte? ==> ValidRc(e.s.queue + p.data, rc)
    ensures var (e', sent) := Receive(e, p, rc, service);
      && e' == e
      && sent == if p.Okay? && p.arg0 != 0 && p.arg1 != 0 && !(e.place.Live? && p.arg1 == e.id)
                 then [Clse(p.arg1, p.arg0)] else []
  {
  }

  /** A CLSE that does not name its sender closes the socket too. */
  lemma ClosesUnnamed(st: State, rc: WriteRc, service: bool)
    requires Opened(st)
    ensures var (e', sent) := Receive(st.me, Clse(0, st.me.id), rc, service);
      e'.place.Gone? && e'.peer == 0 && sent == [Clse(st.me.id, st.other.id)]
  {
  }

  // ---- Moving bytes ----

  /** A write of which the fd takes `n` bytes. */
  function Taking(n: nat): WriteRc {
    if n == 0 then WouldBlock else Accepted(n)
  }

  /** An event at the receiver with such a write, and the delivery of the OKAY that follows it. */
  function Round(delayed: bool, ev: Event, n: nat): seq<Move> {
    [Move(true, ev)] + if delayed || n != 0 then [Move(false, Deliver(WouldBlock, true))] else []
  }

  /** The writes of the receiver's fd that take these numbers of bytes. */
  function Rounds(delayed: bool, takes: seq<nat>): seq<Move> {
    if takes == [] then []
    else Round(delayed, Writable(Taking(takes[0])), takes[0]) + Rounds(delayed, takes[1..])
  }

  function Sum(takes: seq<nat>): nat {
    if takes == [] then 0 else takes[0] + Sum(takes[1..])
  }

  lemma {:induction false} LastIsPositive(takes: seq<nat>)
    requires takes != [] && takes[|takes| - 1] != 0
    ensures Sum(takes) > 0
  {
    if |takes| > 1 {
      LastIsPositive(takes[1..]);
    }
  }

  /** The stream after the sender has read `data` and the receiver's fd has taken `k` bytes of it; the queue goes on
      with `more`. */
  function Midway(st: State, data: seq<byte>, k: nat): State
    requires k <= |data|
  {
    var d := st.me.delayed;
    State(
      st.me.(got := st.me.got + data,
             s := Ready(d).(credit := if d then Some(32 * 1024 * 1024 - |data| + k) else None, rd := d || k > 0)),
      st.other.(written := st.other.written + data[..k], s := Ready(d).(queue := data[k..], wr := k < |data|)), [], [])
  }

  lemma Grows(written: seq<byte>, data: seq<byte>, k: nat, n: nat)
    requires k + n <= |data|
    ensures written + data[..k] + data[k..][..n] == written + data[..k + n] && data[k..][n..] == data[k + n..]
  {
  }

  /** One more write. */
  lemma Takes(st: State, data: seq<byte>, k: nat, n: nat)
    requires Opened(st) && |data| <= st.me.max <= 1024 * 1024 && k + n <= |data| && k < |data|
    ensures var run := Round(st.me.delayed, Writable(Taking(n)), n);
      IsRun(Midway(st, data, k), run) && After(Midway(st, data, k), run) == Midway(st, data, k + n)
  {
    var mid := Midway(st, data, k);
    Grows(st.other.written, data, k, n);
    var m, m' := Move(true, Writable(Taking(n))), Move(false, Deliver(WouldBlock, true));
    if st.me.delayed || n != 0 {
      TwoMoves(mid, m, m');
    } else {
      OneMove(mid, m);
    }
  }

  lemma TakesThen(st: State, data: seq<byte>, k: nat, n: nat, more: seq<Move>)
    requires Opened(st) && |data| <= st.me.max <= 1024 * 1024 && k + n <= |data| && k < |data|
    requires IsRun(Midway(st, data, k + n), more) && After(Midway(st, data, k + n), more) == Midway(st, data, |data|)
    ensures var run := Round(st.me.delayed, Writable(Taking(n)), n) + more;
      IsRun(Midway(st, data, k), run) && After(Midway(st, data, k), run) == Midway(st, data, |data|)
  {
    Takes(st, data, k, n);
    RunAppend(Midway(st, data, k), Round(st.me.delayed, Writable(Taking(n)), n), more);
  }

  /** The writes that take the rest. */
  lemma {:induction false} TakesAll(st: State, data: seq<byte>, k: nat, takes: seq<nat>)
    requires Opened(st) && |data| <= st.me.max <= 1024 * 1024 && k + Sum(takes) == |data|
    requires takes != [] ==> takes[|takes| - 1] != 0
    ensures var run := Rounds(st.me.delayed, takes);
      IsRun(Midway(st, data, k), run) && After(Midway(st, data, k), run) == Midway(st, data, |data|)
    decreases |takes|
  {
    if takes == [] {
      assert Rounds(st.me.delayed, takes) == [];
    } else {
      var n, rest := takes[0], takes[1..];
      LastIsPositive(takes);
      TakesAll(st, data, k + n, rest);
      TakesThen(st, data, k, n, Rounds(st.me.delayed, rest));
    }
  }

  /** The stream after the sender has read `data`. */
  function Reading(st: State, data: seq<byte>): State {
    var d := st.me.delayed;
    var s := Ready(d).(credit := if d then Some(32 * 1024 * 1024 - |data|) else None, rd := d);
    State(st.me.(got := st.me.got + data, s := s), st.other, [Wrte(st.me.id, st.other.id, data)], [])
  }

  lemma Reads(st: State, data: seq<byte>)
    requires Opened(st) && 0 < |data| <= st.me.max <= 1024 * 1024
    ensures var m := Move(false, Readable(data, false)); CanMove(st, m) && DoMove(st, m) == Reading(st, data)
  {
  }

  /** The receiver's fd takes `n` bytes of it at once. */
  function Arriving(st: State, data: seq<byte>, n: nat): State
    requires n <= |data|
  {
    var d, now := st.me.delayed, Midway(st, data, n);
    var back := Okay(st.other.id, st.me.id, if d then Some(n) else None);
    State(Reading(st, data).me, now.other, [], if d || n != 0 then [back] else [])
  }

  lemma FirstWrite(st: State, data: seq<byte>, n: nat)
    requires Opened(st) && 0 < |data| <= st.me.max <= 1024 * 1024 && n <= |data|
    ensures var m := Move(true, Deliver(Taking(n), true));
      CanMove(Reading(st, data), m) && DoMove(Reading(st, data), m) == Arriving(st, data, n)
  {
    Grows(st.other.written, data, 0, n);
    assert [] + data == data && data[0..] == data;
    assert st.other.written + data[..0] == st.other.written;
  }

  lemma FirstOkay(st: State, data: seq<byte>, n: nat)
    requires Opened(st) && 0 < |data| <= st.me.max <= 1024 * 1024 && n <= |data|
    ensures var m := Move(false, Deliver(WouldBlock, true));
      if st.me.delayed || n != 0
      then CanMove(Arriving(st, data, n), m) && DoMove(Arriving(st, data, n), m) == Midway(st, data, n)
      else Arriving(st, data, n) == Midway(st, data, n)
  {
  }

  lemma Arrives(st: State, data: seq<byte>, n: nat)
    requires Opened(st) && 0 < |data| <= st.me.max <= 1024 * 1024 && n <= |data|
    ensures var run := Round(st.me.delayed, Deliver(Taking(n), true), n);
      IsRun(Reading(st, data), run) && After(Reading(st, data), run) == Midway(st, data, n)
  {
    FirstWrite(st, data, n);
    FirstOkay(st, data, n);
    var m, m' := Move(true, Deliver(Taking(n), true)), Move(false, Deliver(WouldBlock, true));
    if st.me.delayed || n != 0 {
      TwoMoves(Reading(st, data), m, m');
    } else {
      OneMove(Reading(st, data), m);
    }
  }

  lemma ArrivesAll(st: State, data: seq<byte>, takes: seq<nat>)
    requires Opened(st) && 0 < |data| <= st.me.max <= 1024 * 1024
    requires takes != [] && Sum(takes) == |data| && takes[|takes| - 1] != 0
    ensures var d := st.me.delayed;
      var run := Round(d, Deliver(Taking(takes[0]), true), takes[0]) + Rounds(d, takes[1..]);
      IsRun(Reading(st, data), run) && After(Reading(st, data), run) == Midway(st, data, |data|)
  {
    var d := st.me.delayed;
    Arrives(st, data, takes[0]);
    TakesAll(st, data, takes[0], takes[1..]);
    RunAppend(Reading(st, data), Round(d, Deliver(Taking(takes[0]), true), takes[0]), Rounds(d, takes[1..]));
  }

  lemma TransferEnds(st: State, data: seq<byte>)
    requires Opened(st) && 0 < |data| <= st.me.max
    ensures var now := Midway(st, data, |data|);
      && Opened(now)
      && now == State(st.me.(got := st.me.got + data), st.other.(written := st.other.written + data), [], [])
  {
    assert data[..|data|] == data && data[|data|..] == [];
  }

  /** However slowly the receiver's fd takes them, the bytes that one read gives all get there, and then the stream is
      as it was. */
  lemma Transfers(st: State, data: seq<byte>, takes: seq<nat>)
    requires Opened(st) && 0 < |data| <= st.me.max <= 1024 * 1024
    requires takes != [] && Sum(takes) == |data| && takes[|takes| - 1] != 0
    ensures var d := st.me.delayed;
      var run := [Move(false, Readable(data, false))] + Round(d, Deliver(Taking(takes[0]), true), takes[0])
                 + Rounds(d, takes[1..]);
      && IsRun(st, run) && Opened(After(st, run))
      && After(st, run) == State(st.me.(got := st.me.got + data), st.other.(written := st.other.written + data), [], [])
  {
    var more := Rounds(st.me.delayed, takes[1..]);
    var m, first := Move(false, Readable(data, false)), Round(st.me.delayed, Deliver(Taking(takes[0]), true), takes[0]);
    ArrivesAll(st, data, takes);
    Reads(st, data);
    RunCons(st, m, first + more);
    ConcatAssociates([m], first, more);
    TransferEnds(st, data);
  }

  // ---- Closing ----

  /** Closing one end of a quiet stream closes the other, and nothing stays on the way. */
  lemma Closes(st: State)
    requires Opened(st)
    ensures var deliver := Deliver(WouldBlock, true);
      var run := [Move(false, Shut), Move(true, deliver), Move(false, deliver)];
      && IsRun(st, run)
      && var s := Ready(st.me.delayed).(rd := false);
         After(st, run) == State(st.me.(place := Gone, cause := ByLocal, peer := 0, s := s),
                                 st.other.(place := Gone, cause := ByPeer, peer := 0, s := s), [], [])
  {
    ThreeMoves(st, Move(false, Shut), Move(true, Deliver(WouldBlock, true)), Move(false, Deliver(WouldBlock, true)));
  }

  /** The stream after the sender has read `data` and the end of its file, and the receiver has got both; its fd has
      taken `k` bytes of it. */
  function Ending(st: State, data: seq<byte>, k: nat): State
    requires k <= |data|
  {
    var d := st.me.delayed;
    var credit := if d then Some(32 * 1024 * 1024 - |data|) else None;
    var me := st.me.(got := st.me.got + data, place := Gone, cause := ByLocal, peer := 0,
                     s := Ready(d).(credit := credit, rd := false));
    var other := st.other.(
      written := st.other.written + data[..k],
      place := if k < |data| then Lingering else Gone, cause := ByPeer, peer := 0,
      s := Ready(d).(closing := true, queue := data[k..], rd := false, wr := k < |data|));
    State(me, other, [],
          (if d then [Okay(st.other.id, st.me.id, Some(0))] else []) + [Clse(st.other.id, st.me.id)])
  }

  lemma Ends(st: State, data: seq<byte>)
    requires Opened(st) && 0 < |data| <= st.me.max <= 1024 * 1024
    ensures var m, m' := Move(false, Readable(data, true)), Move(true, Deliver(WouldBlock, true));
      IsRun(st, [m, m', m']) && After(st, [m, m', m']) == Ending(st, data, 0)
  {
    assert [] + data == data && data[0..] == data && st.other.written + data[..0] == st.other.written;
    var m, m' := Move(false, Readable(data, true)), Move(true, Deliver(WouldBlock, true));
    ThreeMoves(st, m, m', m');
  }

  function Writes(takes: seq<nat>): seq<Move> {
    if takes == [] then [] else [Move(true, Writable(Taking(takes[0])))] + Writes(takes[1..])
  }

  lemma WritesMore(st: State, data: seq<byte>, k: nat, n: nat)
    requires Opened(st) && |data| <= st.me.max <= 1024 * 1024 && k + n <= |data| && k < |data|
    ensures var m := Move(true, Writable(Taking(n)));
      CanMove(Ending(st, data, k), m) && DoMove(Ending(st, data, k), m) == Ending(st, data, k + n)
  {
    Grows(st.other.written, data, k, n);
  }

  lemma {:induction false} WritesRest(st: State, data: seq<byte>, k: nat, takes: seq<nat>)
    requires Opened(st) && |data| <= st.me.max <= 1024 * 1024 && k + Sum(takes) == |data|
    requires takes != [] ==> takes[|takes| - 1] != 0
    ensures IsRun(Ending(st, data, k), Writes(takes))
    ensures After(Ending(st, data, k), Writes(takes)) == Ending(st, data, |data|)
    decreases |takes|
  {
    if takes == [] {
      assert Writes(takes) == [];
    } else {
      LastIsPositive(takes);
      WritesRest(st, data, k + takes[0], takes[1..]);
      WritesMore(st, data, k, takes[0]);
      RunCons(Ending(st, data, k), Move(true, Writable(Taking(takes[0]))), Writes(takes[1..]));
    }
  }

  /** What was read before the end of the file is still written, however slowly, though both ends have closed by then;
      only then is the receiver's socket freed. */
  lemma Drains(st: State, data: seq<byte>, takes: seq<nat>)
    requires Opened(st) && 0 < |data| <= st.me.max <= 1024 * 1024
    requires takes != [] && Sum(takes) == |data| && takes[|takes| - 1] != 0
    ensures var m, m' := Move(false, Readable(data, true)), Move(true, Deliver(WouldBlock, true));
      && IsRun(st, [m, m', m']) && After(st, [m, m', m']).other.place.Lingering?
      && IsRun(st, [m, m', m'] + Writes(takes))
      && var now := After(st, [m, m', m'] + Writes(takes));
         && now.me.place.Gone? && now.other.place.Gone?
         && now.me.got == st.me.got + data && now.other.written == st.other.written + data
  {
    var m, m' := Move(false, Readable(data, true)), Move(true, Deliver(WouldBlock, true));
    Ends(st, data);
    WritesRest(st, data, 0, takes);
    RunAppend(st, [m, m', m'], Writes(takes));
    assert data[..|data|] == data;
  }
}
