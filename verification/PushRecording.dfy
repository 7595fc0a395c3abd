/** When the shadow of PushConstants will do, told from the recording alone: what was pushed last to a byte for any
    stage must be what was pushed last to it for the stage that reads it. */
module PushRecording {
  import opened Bytes
  import opened PushConstants

  // ---- What a recording so far says, from its last event back ----

  predicate Fits(p: Push) {
    p.offset + |p.values| <= 256
  }

  /** The value pushed last for a bind point. */
  function LastFor(past: seq<Event>, bp: BindPoint, b: nat): Option<byte> {
    if past == [] then None
    else
      var e := past[|past| - 1];
      if e.Pushing? && Covers(e.p.stages, e.p.offset, |e.p.values|, bp, b) then Some(e.p.values[b - e.p.offset])
      else LastFor(past[..|past| - 1], bp, b)
  }

  /** The value pushed last for any stages, by pushes that fit PC_BYTES. */
  function LastForAny(past: seq<Event>, b: nat): Option<byte> {
    if past == [] then None
    else
      var e := past[|past| - 1];
      if e.Pushing? && Fits(e.p) && e.p.offset <= b < e.p.offset + |e.p.values| then Some(e.p.values[b - e.p.offset])
      else LastForAny(past[..|past| - 1], b)
  }

  /** Whether anything was pushed that fits. */
  predicate AnyFits(past: seq<Event>) {
    past != [] &&
      var e := past[|past| - 1];
      (e.Pushing? && Fits(e.p) && e.p.offset + |e.p.values| > 0) || AnyFits(past[..|past| - 1])
  }

  /** The layout bound last. */
  function BoundLast(past: seq<Event>, bp: BindPoint): nat {
    if past == [] then 0
    else
      var e := past[|past| - 1];
      if e.Binding? && e.bp == bp then e.layout else BoundLast(past[..|past| - 1], bp)
  }

  function KnownLayouts(layouts: Layouts, past: seq<Event>): Layouts {
    if past == [] then layouts
    else
      var known := KnownLayouts(layouts, past[..|past| - 1]);
      match past[|past| - 1]
      case Creating(layout, ranges) => if Kept(ranges) then known[layout := ranges] else known
      case Destroying(layout) => known - {layout}
      case _ => known
  }

  /** Whether the bind point reads the byte, or will once a layout is bound. */
  predicate Reads(known: Layouts, past: seq<Event>, bp: BindPoint, b: nat) {
    var bound := BoundLast(past, bp);
    bound == 0 || (bound in known && InRanges(known[bound], bp, b))
  }

  /** A byte that was pushed for a bind point was pushed last, for any stages, with that value. The bytes that no push
      reached are whatever the table entry held. */
  predicate Current(bytes: Shadow, past: seq<Event>, bp: BindPoint, b: nat) {
    LastFor(past, bp, b).Some? ==>
      b < PC_BYTES && LastFor(past, bp, b) == Some(if LastForAny(past, b).Some? then LastForAny(past, b).value
                                                   else bytes[b])
  }

  /** The condition for one more event: at a change to a known layout, the bytes of its ranges must be current. */
  ghost predicate CoherentNext(layouts: Layouts, bytes: Shadow, past: seq<Event>, e: Event) {
    var known := KnownLayouts(layouts, past);
    e.Binding? && BoundLast(past, e.bp) != 0 && BoundLast(past, e.bp) != e.layout && e.layout in known ==>
      if AnyFits(past)
      then forall q: BindPoint, b: nat | InRanges(known[e.layout], q, b) && (q == e.bp || Reads(known, past, q, b)) ::
             Current(bytes, past, q, b)
      else forall b: nat | InRanges(known[e.layout], e.bp, b) :: LastFor(past, e.bp, b) == None
  }

  ghost predicate Coherent(layouts: Layouts, bytes: Shadow, events: seq<Event>) {
    forall i | 0 <= i < |events| :: CoherentNext(layouts, bytes, events[..i], events[i])
  }

  // ---- The model's state says the same ----

  lemma {:induction false} AfterSnoc(s: State, past: seq<Event>, e: Event)
    requires Tracked(s) && IsRun(s, past + [e])
    ensures IsRun(s, past) && Enabled(After(s, past), e) && After(s, past + [e]) == Step(After(s, past), e)
    decreases |past|
  {
    if past == [] {
      assert past + [e] == [e] && [e][1..] == [];
      StepTracks(s, e);
    } else {
      assert (past + [e])[1..] == past[1..] + [e];
      StepTracks(s, past[0]);
      AfterSnoc(Step(s, past[0]), past[1..], e);
    }
  }

  predicate TellsCmd(past: seq<Event>, c: CmdBuf) {
    c.graphics == BoundLast(past, Graphics) && c.compute == BoundLast(past, Compute) && (c.end != 0 <==> AnyFits(past))
  }

  ghost predicate TellsLast(past: seq<Event>, t: State) {
    forall bp, b: nat :: t.last(bp, b) == LastFor(past, bp, b)
  }

  predicate TellsBytes(bytes: Shadow, past: seq<Event>, t: State) {
    forall b | 0 <= b < PC_BYTES ::
      t.cmd.bytes[b] == if LastForAny(past, b).Some? then LastForAny(past, b).value else bytes[b]
  }

  /** The state that a recording leads to. */
  ghost predicate Tells(layouts: Layouts, bytes: Shadow, past: seq<Event>, t: State) {
    && t.layouts == KnownLayouts(layouts, past)
    && TellsCmd(past, t.cmd) && TellsLast(past, t) && TellsBytes(bytes, past, t)
  }

  lemma KnownNext(layouts: Layouts, past: seq<Event>, e: Event, t: State)
    requires Tracked(t) && Enabled(t, e) && t.layouts == KnownLayouts(layouts, past)
    ensures Step(t, e).layouts == KnownLayouts(layouts, past + [e])
  {
    var now := past + [e];
    assert now[..|now| - 1] == past && now[|now| - 1] == e;
  }

  lemma BoundLastSnoc(past: seq<Event>, e: Event, bp: BindPoint)
    ensures BoundLast(past + [e], bp) == if e.Binding? && e.bp == bp then e.layout else BoundLast(past, bp)
  {
    var now := past + [e];
    assert now[..|now| - 1] == past && now[|now| - 1] == e;
  }

  lemma AnyFitsSnoc(past: seq<Event>, e: Event)
    ensures AnyFits(past + [e])
      <==> (e.Pushing? && Fits(e.p) && e.p.offset + |e.p.values| > 0) || AnyFits(past)
  {
    var now := past + [e];
    assert now[..|now| - 1] == past && now[|now| - 1] == e;
  }

  lemma StepCmd(t: State, e: Event)
    requires Tracked(t) && Enabled(t, e)
    ensures var c := Step(t, e).cmd;
      && c.graphics == (if e.Binding? && e.bp == Graphics then e.layout else t.cmd.graphics)
      && c.compute == (if e.Binding? && e.bp == Compute then e.layout else t.cmd.compute)
      && (c.end != 0 <==> (e.Pushing? && Fits(e.p) && e.p.offset + |e.p.values| > 0) || t.cmd.end != 0)
  {
  }

  lemma TellsCmdNext(past: seq<Event>, e: Event, t: State)
    requires Tracked(t) && Enabled(t, e) && TellsCmd(past, t.cmd)
    ensures TellsCmd(past + [e], Step(t, e).cmd)
  {
    StepCmd(t, e);
    BoundLastSnoc(past, e, Graphics);
    BoundLastSnoc(past, e, Compute);
    AnyFitsSnoc(past, e);
  }

  lemma TellsLastNext(past: seq<Event>, e: Event, t: State)
    requires Tracked(t) && Enabled(t, e) && TellsLast(past, t)
    ensures TellsLast(past + [e], Step(t, e))
  {
    var now := past + [e];
    assert now[..|now| - 1] == past && now[|now| - 1] == e;
  }

  lemma TellsBytesNext(bytes: Shadow, past: seq<Event>, e: Event, t: State)
    requires Tracked(t) && Enabled(t, e) && TellsBytes(bytes, past, t)
    ensures TellsBytes(bytes, past + [e], Step(t, e))
  {
    var now := past + [e];
    assert now[..|now| - 1] == past && now[|now| - 1] == e;
  }

  lemma TellsNext(layouts: Layouts, bytes: Shadow, past: seq<Event>, e: Event, t: State)
    requires Tracked(t) && Enabled(t, e) && Tells(layouts, bytes, past, t)
    ensures Tells(layouts, bytes, past + [e], Step(t, e)) == true
  {
    KnownNext(layouts, past, e, t);
    TellsCmdNext(past, e, t);
    TellsLastNext(past, e, t);
    TellsBytesNext(bytes, past, e, t);
  }

  lemma {:induction false} RunTells(layouts: Layouts, bytes: Shadow, past: seq<Event>)
    requires AllKept(layouts) && 0 !in layouts && IsRun(Begun(layouts, bytes), past)
    ensures Tells(layouts, bytes, past, After(Begun(layouts, bytes), past))
  {
    if past != [] {
      var init, e := past[..|past| - 1], past[|past| - 1];
      assert past == init + [e];
      AfterSnoc(Begun(layouts, bytes), init, e);
      RunTells(layouts, bytes, init);
      TellsNext(layouts, bytes, init, e, After(Begun(layouts, bytes), init));
    }
  }

  lemma SufficesIff(layouts: Layouts, bytes: Shadow, past: seq<Event>, e: Event, t: State)
    requires Tracked(t) && Tells(layouts, bytes, past, t)
    ensures Suffices(t, e) <==> CoherentNext(layouts, bytes, past, e)
  {
  }

  lemma {:induction false} AlwaysSufficesSnoc(s: State, past: seq<Event>, e: Event)
    requires Tracked(s) && IsRun(s, past + [e]) && IsRun(s, past)
    ensures AlwaysSuffices(s, past + [e]) <==> AlwaysSuffices(s, past) && Suffices(After(s, past), e)
    decreases |past|
  {
    if past == [] {
      assert past + [e] == [e] && [e][1..] == [];
      StepTracks(s, e);
    } else {
      assert (past + [e])[1..] == past[1..] + [e];
      StepTracks(s, past[0]);
      AlwaysSufficesSnoc(Step(s, past[0]), past[1..], e);
    }
  }

  lemma CoherentSnoc(layouts: Layouts, bytes: Shadow, past: seq<Event>, e: Event)
    ensures Coherent(layouts, bytes, past + [e])
      <==> Coherent(layouts, bytes, past) && CoherentNext(layouts, bytes, past, e)
  {
    var all := past + [e];
    assert forall i | 0 <= i < |past| :: all[..i] == past[..i] && all[i] == past[i];
    assert all[..|past|] == past && all[|past|] == e;
  }

  lemma {:induction false} AlwaysSufficesIff(layouts: Layouts, bytes: Shadow, events: seq<Event>)
    requires AllKept(layouts) && 0 !in layouts && IsRun(Begun(layouts, bytes), events)
    ensures AlwaysSuffices(Begun(layouts, bytes), events) <==> Coherent(layouts, bytes, events)
  {
    if events != [] {
      var s, past, e := Begun(layouts, bytes), events[..|events| - 1], events[|events| - 1];
      assert events == past + [e];
      AfterSnoc(s, past, e);
      AlwaysSufficesIff(layouts, bytes, past);
      AlwaysSufficesSnoc(s, past, e);
      RunTells(layouts, bytes, past);
      SufficesIff(layouts, bytes, past, e, After(s, past));
      CoherentSnoc(layouts, bytes, past, e);
    }
  }

  /** A recording keeps the promise throughout exactly if it is coherent. */
  lemma RecordingAgreesIff(layouts: Layouts, bytes: Shadow, events: seq<Event>)
    requires AllKept(layouts) && 0 !in layouts && IsRun(Begun(layouts, bytes), events)
    ensures AlwaysAgrees(Begun(layouts, bytes), events) <==> Coherent(layouts, bytes, events)
  {
    RunAgreesIff(Begun(layouts, bytes), events);
    AlwaysSufficesIff(layouts, bytes, events);
  }

  predicate AllFit(events: seq<Event>) {
    forall i | 0 <= i < |events| && events[i].Pushing? :: Fits(events[i].p)
  }

  lemma {:induction false} PushedForAny(past: seq<Event>, bp: BindPoint, b: nat)
    requires AllFit(past) && LastFor(past, bp, b).Some?
    ensures b < PC_BYTES && LastForAny(past, b).Some?
  {
    var e := past[|past| - 1];
    if !(e.Pushing? && Covers(e.p.stages, e.p.offset, |e.p.values|, bp, b)) {
      PushedForAny(past[..|past| - 1], bp, b);
    }
  }

  lemma NextIgnoresBytes(layouts: Layouts, bytes: Shadow, others: Shadow, past: seq<Event>, e: Event)
    requires AllFit(past) && CoherentNext(layouts, bytes, past, e)
    ensures CoherentNext(layouts, others, past, e)
  {
    forall q: BindPoint, b: nat | Current(bytes, past, q, b) ensures Current(others, past, q, b) {
      if LastFor(past, q, b).Some? {
        PushedForAny(past, q, b);
      }
    }
  }

  /** If all pushes fit, what the table entry held before makes no difference. */
  lemma FittingIgnoresBytes(layouts: Layouts, bytes: Shadow, others: Shadow, events: seq<Event>)
    requires AllFit(events) && Coherent(layouts, bytes, events)
    ensures Coherent(layouts, others, events)
  {
    forall i | 0 <= i < |events| ensures CoherentNext(layouts, others, events[..i], events[i]) {
      NextIgnoresBytes(layouts, bytes, others, events[..i], events[i]);
    }
  }

  // ---- The promise, for every layout that was created ----

  /** The ranges that a layout was created with, unless it has been destroyed since. */
  function CreatedWith(layouts: Layouts, past: seq<Event>, layout: nat): Option<seq<Range>> {
    if past == [] then if layout in layouts then Some(layouts[layout]) else None
    else
      match past[|past| - 1]
      case Creating(l, ranges) =>
        if l == layout then Some(ranges) else CreatedWith(layouts, past[..|past| - 1], layout)
      case Destroying(l) => if l == layout then None else CreatedWith(layouts, past[..|past| - 1], layout)
      case _ => CreatedWith(layouts, past[..|past| - 1], layout)
  }

  predicate FewAndSmall(ranges: seq<Range>) {
    1 <= |ranges| <= 4 && forall i | 0 <= i < |ranges| :: ranges[i].offset + ranges[i].size <= 256
  }

  lemma {:induction false} CreatedIsKnown(layouts: Layouts, past: seq<Event>, layout: nat, ranges: seq<Range>)
    requires CreatedWith(layouts, past, layout) == Some(ranges) && FewAndSmall(ranges)
    ensures layout in KnownLayouts(layouts, past) && KnownLayouts(layouts, past)[layout] == ranges
  {
    if past != [] {
      var e := past[|past| - 1];
      if !((e.Creating? || e.Destroying?) && e.layout == layout) {
        CreatedIsKnown(layouts, past[..|past| - 1], layout, ranges);
      }
    }
  }

  lemma {:induction false} AgreesInTheEnd(s: State, events: seq<Event>)
    requires Tracked(s) && IsRun(s, events) && AlwaysAgrees(s, events)
    ensures Agrees(After(s, events))
    decreases |events|
  {
    if events != [] {
      StepTracks(s, events[0]);
      AgreesInTheEnd(Step(s, events[0]), events[1..]);
    }
  }

  /** Of every layout that was created with one to four ranges within 256 bytes and is bound, the driver holds the bytes
      of its ranges that were pushed last, in every recording that pushes each byte for one set of stages. */
  lemma CreatedLayoutsRead(layouts: Layouts, bytes: Shadow, events: seq<Event>, owner: nat -> set<BindPoint>,
                           bp: BindPoint, ranges: seq<Range>, b: nat)
    requires AllKept(layouts) && 0 !in layouts && IsRun(Begun(layouts, bytes), events) && OneOwner(events, owner)
    requires CreatedWith(layouts, events, BoundLast(events, bp)) == Some(ranges) && FewAndSmall(ranges)
    requires InRanges(ranges, bp, b) && LastFor(events, bp, b).Some?
    ensures After(Begun(layouts, bytes), events).driver.roots(bp, b) == LastFor(events, bp, b)
  {
    PushesSurviveLayouts(layouts, bytes, events, owner);
    AgreesInTheEnd(Begun(layouts, bytes), events);
    RunTells(layouts, bytes, events);
    CreatedIsKnown(layouts, events, BoundLast(events, bp), ranges);
    var s := After(Begun(layouts, bytes), events);
    assert Visible(s, bp, b) && s.last(bp, b) == LastFor(events, bp, b);
  }
}
