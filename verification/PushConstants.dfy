/** Item 7 of ika_dzn_fix.c: the layer shadows a command buffer's push constants and pushes them again when the
    pipeline layout changes, because the driver's root constants are reset then. */
module PushConstants {
  import opened Bytes

  const PC_RANGES: nat := 4
  const PC_BYTES: nat := 256

  datatype BindPoint = Graphics | Compute

  /** A push constant range; of its stage flags, only which bind points they belong to matters. */
  datatype Range = Range(stages: set<BindPoint>, offset: nat, size: nat)

  /** vkCmdPushConstants. */
  datatype Push = Push(stages: set<BindPoint>, offset: nat, values: seq<byte>)

  /** The bytes member of struct pc_cmdbuf. */
  type Shadow = s: seq<byte> | |s| == PC_BYTES witness seq(PC_BYTES, _ => 0)

  predicate Covers(stages: set<BindPoint>, offset: nat, size: nat, bp: BindPoint, b: nat) {
    bp in stages && offset <= b < offset + size
  }

  /** struct pc_cmdbuf: the layout bound last at each bind point, the end of the bytes pushed, and the bytes. */
  datatype CmdBuf = CmdBuf(graphics: nat, compute: nat, end: nat, bytes: Shadow) {
    function Bound(bp: BindPoint): nat {
      if bp == Graphics then graphics else compute
    }

    function Bind(bp: BindPoint, layout: nat): CmdBuf {
      if bp == Graphics then this.(graphics := layout) else this.(compute := layout)
    }
  }

  type Layouts = map<nat, seq<Range>>

  /** The layouts that layer_CreatePipelineLayout keeps. */
  predicate Kept(ranges: seq<Range>) {
    && 0 < |ranges| <= PC_RANGES
    && forall i | 0 <= i < |ranges| :: ranges[i].offset + ranges[i].size <= PC_BYTES
  }

  predicate AllKept(layouts: Layouts) {
    forall k | k in layouts :: Kept(layouts[k])
  }

  /** layer_CmdPushConstants. */
  function Record(c: CmdBuf, p: Push): CmdBuf {
    if p.offset + |p.values| <= PC_BYTES then
      c.(bytes := c.bytes[..p.offset] + p.values + c.bytes[p.offset + |p.values|..],
         end := Max(c.end, p.offset + |p.values|))
    else c
  }

  function PushesOf(ranges: seq<Range>, bytes: Shadow): (pushes: seq<Push>)
    requires forall i | 0 <= i < |ranges| :: ranges[i].offset + ranges[i].size <= PC_BYTES
  {
    seq(|ranges|, i requires 0 <= i < |ranges| =>
      Push(ranges[i].stages, ranges[i].offset, bytes[ranges[i].offset..ranges[i].offset + ranges[i].size]))
  }

  /** layer_CmdBindPipeline, for a pipeline known to have the given layout: what it pushes again. */
  predicate Replays(layouts: Layouts, c: CmdBuf, bp: BindPoint, layout: nat) {
    c.Bound(bp) != layout && c.Bound(bp) != 0 && c.end != 0 && layout in layouts
  }

  function Replay(layouts: Layouts, c: CmdBuf, bp: BindPoint, layout: nat): seq<Push>
    requires AllKept(layouts)
  {
    if Replays(layouts, c, bp, layout) then PushesOf(layouts[layout], c.bytes) else []
  }

  /** The driver: each bind point's layout, and each root constant, if it was pushed since the last reset. */
  type Roots = (BindPoint, nat) -> Option<byte>

  datatype Driver = Driver(graphics: nat, compute: nat, roots: Roots) {
    function Bound(bp: BindPoint): nat {
      if bp == Graphics then graphics else compute
    }
  }

  function Pushed(roots: Roots, p: Push): Roots {
    (bp: BindPoint, b: nat) =>
      if Covers(p.stages, p.offset, |p.values|, bp, b) then Some(p.values[b - p.offset]) else roots(bp, b)
  }

  function PushedAll(roots: Roots, pushes: seq<Push>): Roots {
    if pushes == [] then roots else PushedAll(Pushed(roots, pushes[0]), pushes[1..])
  }

  /** Only a change from another layout resets the root constants of the bind point. */
  function DriverBind(d: Driver, bp: BindPoint, layout: nat): Driver {
    var roots: Roots := if d.Bound(bp) != 0 && d.Bound(bp) != layout
      then (q, b) => if q == bp then None else d.roots(q, b) else d.roots;
    if bp == Graphics then Driver(layout, d.compute, roots) else Driver(d.graphics, layout, roots)
  }

  /** One command buffer being recorded: the layer's shadow, the driver, and what the application pushed last for
      each bind point since vkBeginCommandBuffer. */
  datatype State = State(layouts: Layouts, cmd: CmdBuf, driver: Driver, last: Roots)

  datatype Event =
    | Pushing(p: Push)
    | Binding(bp: BindPoint, layout: nat)
    | Creating(layout: nat, ranges: seq<Range>)
    | Destroying(layout: nat)

  function NothingPushed(): Roots {
    (bp, b) => None
  }

  /** vkBeginCommandBuffer; the shadow bytes are whatever the table entry held. */
  function Begun(layouts: Layouts, bytes: Shadow): State {
    State(layouts, CmdBuf(0, 0, 0, bytes), Driver(0, 0, NothingPushed()), NothingPushed())
  }

  /** Layout handles are not null, and a handle in use is not given to a new layout. */
  predicate Enabled(s: State, e: Event) {
    match e
    case Pushing(p) => true
    case Binding(bp, layout) => layout != 0
    case Creating(layout, ranges) => layout != 0 && layout != s.driver.graphics && layout != s.driver.compute
    case Destroying(layout) => true
  }

  function Step(s: State, e: Event): State
    requires AllKept(s.layouts)
  {
    match e
    case Pushing(p) =>
      s.(cmd := Record(s.cmd, p), driver := s.driver.(roots := Pushed(s.driver.roots, p)), last := Pushed(s.last, p))
    case Binding(bp, layout) =>
      var d := DriverBind(s.driver, bp, layout);
      s.(cmd := s.cmd.Bind(bp, layout),
         driver := d.(roots := PushedAll(d.roots, Replay(s.layouts, s.cmd, bp, layout))))
    case Creating(layout, ranges) =>
      if Kept(ranges) then s.(layouts := s.layouts[layout := ranges]) else s
    case Destroying(layout) => s.(layouts := s.layouts - {layout})
  }

  predicate InRanges(ranges: seq<Range>, bp: BindPoint, b: nat) {
    exists i :: 0 <= i < |ranges| && Covers(ranges[i].stages, ranges[i].offset, ranges[i].size, bp, b)
  }

  /** A byte of a range of the layout bound at `bp`. */
  predicate Visible(s: State, bp: BindPoint, b: nat) {
    s.driver.Bound(bp) in s.layouts && InRanges(s.layouts[s.driver.Bound(bp)], bp, b)
  }

  /** What Vulkan promises: the shaders of `bp` read the value pushed last for them. Before the first bind, which
      resets nothing, every byte counts. */
  ghost predicate Agrees(s: State) {
    forall bp: BindPoint, b: nat | (s.driver.Bound(bp) == 0 || Visible(s, bp, b)) && s.last(bp, b).Some? ::
      s.driver.roots(bp, b) == s.last(bp, b)
  }

  /** The layer and the driver know of the same layouts. */
  predicate Tracked(s: State) {
    && AllKept(s.layouts) && 0 !in s.layouts
    && s.cmd.graphics == s.driver.graphics && s.cmd.compute == s.driver.compute
  }

  /** Whether the layer's single shadow will do: at a change to a known layout, each byte of its ranges that is in use
      must have been pushed last, for any stage, with the value that was pushed last for the stages of the range. */
  ghost predicate Suffices(s: State, e: Event)
    requires Tracked(s)
  {
    e.Binding? && s.cmd.Bound(e.bp) != 0 && s.cmd.Bound(e.bp) != e.layout && e.layout in s.layouts ==>
      if s.cmd.end == 0 then forall b: nat | InRanges(s.layouts[e.layout], e.bp, b) :: s.last(e.bp, b) == None
      else forall q: BindPoint, b: nat | InRanges(s.layouts[e.layout], q, b) && s.last(q, b).Some?
                         && (q == e.bp || s.driver.Bound(q) == 0 || Visible(s, q, b)) ::
             b < PC_BYTES && s.last(q, b) == Some(s.cmd.bytes[b])
  }

  lemma StepTracks(s: State, e: Event)
    requires Tracked(s) && Enabled(s, e)
    ensures Tracked(Step(s, e))
  {
  }

  lemma InRangesSplit(ranges: seq<Range>, bp: BindPoint, b: nat)
    requires ranges != []
    ensures InRanges(ranges, bp, b)
      <==> Covers(ranges[0].stages, ranges[0].offset, ranges[0].size, bp, b) || InRanges(ranges[1..], bp, b)
  {
    if i :| 0 <= i < |ranges| && Covers(ranges[i].stages, ranges[i].offset, ranges[i].size, bp, b) {
      assert i > 0 ==> ranges[1..][i - 1] == ranges[i];
    }
    if i :| 0 <= i < |ranges| - 1 && Covers(ranges[1..][i].stages, ranges[1..][i].offset, ranges[1..][i].size, bp, b) {
      assert ranges[1..][i] == ranges[i + 1];
    }
  }

  /** Replaying gives exactly the bytes of the ranges the shadow's values. */
  lemma {:induction false} ReplayWrites(roots: Roots, ranges: seq<Range>, bytes: Shadow, bp: BindPoint, b: nat)
    requires forall i | 0 <= i < |ranges| :: ranges[i].offset + ranges[i].size <= PC_BYTES
    ensures InRanges(ranges, bp, b) ==> b < PC_BYTES
    ensures PushedAll(roots, PushesOf(ranges, bytes))(bp, b)
         == if InRanges(ranges, bp, b) then Some(bytes[b]) else roots(bp, b)
  {
    if ranges != [] {
      var pushes := PushesOf(ranges, bytes);
      var r := ranges[0];
      assert pushes[1..] == PushesOf(ranges[1..], bytes);
      ReplayWrites(Pushed(roots, pushes[0]), ranges[1..], bytes, bp, b);
      InRangesSplit(ranges, bp, b);
    }
  }

  /** A bind that changes the layout to a known one. */
  lemma ChangeAgreesIff(s: State, bp: BindPoint, layout: nat)
    requires Tracked(s) && Agrees(s)
    requires s.cmd.Bound(bp) != 0 && s.cmd.Bound(bp) != layout && layout in s.layouts
    ensures Agrees(Step(s, Binding(bp, layout))) <==> Suffices(s, Binding(bp, layout))
  {
    var e := Binding(bp, layout);
    var s', ranges := Step(s, e), s.layouts[layout];
    var d := DriverBind(s.driver, bp, layout);
    forall q: BindPoint, b: nat
      ensures s.cmd.end != 0 && InRanges(ranges, q, b) ==>
                b < PC_BYTES && s'.driver.roots(q, b) == Some(s.cmd.bytes[b])
      ensures s.cmd.end == 0 || !InRanges(ranges, q, b) ==> s'.driver.roots(q, b) == d.roots(q, b)
    {
      ReplayWrites(d.roots, ranges, s.cmd.bytes, q, b);
    }
    assert forall b: nat :: Visible(s', bp, b) <==> InRanges(ranges, bp, b);
    forall q | q != bp ensures s'.driver.Bound(q) == s.driver.Bound(q) {
    }
    if Suffices(s, e) {
      forall q: BindPoint, b: nat | (s'.driver.Bound(q) == 0 || Visible(s', q, b)) && s'.last(q, b).Some?
        ensures s'.driver.roots(q, b) == s'.last(q, b)
      {
      }
    }
    if Agrees(s') {
      if s.cmd.end != 0 {
        forall q: BindPoint, b: nat | InRanges(ranges, q, b) && s.last(q, b).Some?
                      && (q == bp || s.driver.Bound(q) == 0 || Visible(s, q, b))
          ensures b < PC_BYTES && s.last(q, b) == Some(s.cmd.bytes[b])
        {
        }
      }
    }
  }

  /** Every step keeps the promise exactly if the shadow suffices for it. */
  lemma StepAgreesIff(s: State, e: Event)
    requires Tracked(s) && Agrees(s) && Enabled(s, e)
    ensures Agrees(Step(s, e)) <==> Suffices(s, e)
  {
    if e.Binding? && s.cmd.Bound(e.bp) != 0 && s.cmd.Bound(e.bp) != e.layout && e.layout in s.layouts {
      ChangeAgreesIff(s, e.bp, e.layout);
    } else {
      var s' := Step(s, e);
      forall q: BindPoint, b: nat | (s'.driver.Bound(q) == 0 || Visible(s', q, b)) && s'.last(q, b).Some?
        ensures s'.driver.roots(q, b) == s'.last(q, b)
      {
      }
    }
  }

  predicate IsRun(s: State, events: seq<Event>)
    requires Tracked(s)
    decreases |events|
  {
    events != [] ==> Enabled(s, events[0]) && (StepTracks(s, events[0]); IsRun(Step(s, events[0]), events[1..]))
  }

  function After(s: State, events: seq<Event>): (t: State)
    requires Tracked(s) && IsRun(s, events)
    ensures Tracked(t)
    decreases |events|
  {
    if events == [] then s
    else
      StepTracks(s, events[0]);
      After(Step(s, events[0]), events[1..])
  }

  /** The shadow suffices at every step of a run. */
  ghost predicate AlwaysSuffices(s: State, events: seq<Event>)
    requires Tracked(s) && IsRun(s, events)
    decreases |events|
  {
    events != [] ==>
      Suffices(s, events[0]) && (StepTracks(s, events[0]); AlwaysSuffices(Step(s, events[0]), events[1..]))
  }

  /** The promise holds after every step of a run, */
  ghost predicate AlwaysAgrees(s: State, events: seq<Event>)
    requires Tracked(s) && IsRun(s, events)
    decreases |events|
  {
    Agrees(s) && (events != [] ==> (StepTracks(s, events[0]); AlwaysAgrees(Step(s, events[0]), events[1..])))
  }

  /** exactly if the shadow suffices at every step. */
  lemma {:induction false} RunAgreesIff(s: State, events: seq<Event>)
    requires Tracked(s) && IsRun(s, events) && Agrees(s)
    ensures AlwaysAgrees(s, events) <==> AlwaysSuffices(s, events)
    decreases |events|
  {
    if events != [] {
      StepTracks(s, events[0]);
      StepAgreesIff(s, events[0]);
      var s' := Step(s, events[0]);
      if Agrees(s') {
        RunAgreesIff(s', events[1..]);
      } else {
        assert !AlwaysAgrees(s', events[1..]);
      }
    }
  }

  /** Pushes that fit the shadow and never push one byte for different stages. */
  ghost predicate OneOwner(events: seq<Event>, owner: nat -> set<BindPoint>) {
    forall i | 0 <= i < |events| && events[i].Pushing? ::
      var p := events[i].p;
      p.offset + |p.values| <= 256 && forall b | p.offset <= b < p.offset + |p.values| :: p.stages == owner(b)
  }

  /** What the shadow holds while each byte has one owner. */
  ghost predicate ShadowHolds(s: State, owner: nat -> set<BindPoint>)
    requires Tracked(s)
  {
    forall bp, b: nat | s.last(bp, b).Some? ::
      b < PC_BYTES && s.cmd.end != 0 && bp in owner(b) && s.last(bp, b) == Some(s.cmd.bytes[b])
  }

  lemma StepShadow(s: State, e: Event, owner: nat -> set<BindPoint>)
    requires Tracked(s) && Enabled(s, e) && ShadowHolds(s, owner) && OneOwner([e], owner)
    ensures Suffices(s, e)
    ensures Tracked(Step(s, e)) && ShadowHolds(Step(s, e), owner)
  {
    assert [e][0] == e;
  }

  lemma {:induction false} OneOwnerSuffices(s: State, events: seq<Event>, owner: nat -> set<BindPoint>)
    requires Tracked(s) && IsRun(s, events) && ShadowHolds(s, owner) && OneOwner(events, owner)
    ensures AlwaysSuffices(s, events)
    decreases |events|
  {
    if events != [] {
      StepTracks(s, events[0]);
      StepShadow(s, events[0], owner);
      forall i | 0 <= i < |events[1..]| && events[1..][i].Pushing?
        ensures var p := events[1..][i].p;
          p.offset + |p.values| <= 256 && forall b | p.offset <= b < p.offset + |p.values| :: p.stages == owner(b)
      {
        assert events[1..][i] == events[i + 1];
      }
      OneOwnerSuffices(Step(s, events[0]), events[1..], owner);
    }
  }

  /** The purpose of the layer: in every recording that pushes each byte for one set of stages, the shaders always
      read what was pushed last, whatever layouts are bound in between. */
  lemma PushesSurviveLayouts(layouts: Layouts, bytes: Shadow, events: seq<Event>, owner: nat -> set<BindPoint>)
    requires AllKept(layouts) && 0 !in layouts
    requires IsRun(Begun(layouts, bytes), events) && OneOwner(events, owner)
    ensures AlwaysAgrees(Begun(layouts, bytes), events)
  {
    OneOwnerSuffices(Begun(layouts, bytes), events, owner);
    RunAgreesIff(Begun(layouts, bytes), events);
  }

  lemma RunCons(s: State, e: Event, rest: seq<Event>)
    requires Tracked(s) && Enabled(s, e) && Tracked(Step(s, e)) && IsRun(Step(s, e), rest)
    ensures IsRun(s, [e] + rest) && After(s, [e] + rest) == After(Step(s, e), rest)
  {
    assert ([e] + rest)[1..] == rest;
  }

  /** A recording in which they do not: a push for compute alone changes what is pushed again for graphics. */
  lemma ComputePushSpoilsGraphics(bytes: Shadow)
    ensures var r := [Range({Graphics}, 0, 1)];
      var s := Begun(map[1 := r, 2 := r], bytes);
      var events := [Binding(Graphics, 1), Pushing(Push({Graphics}, 0, [1])), Pushing(Push({Compute}, 0, [2])),
                     Binding(Graphics, 2)];
      Tracked(s) && IsRun(s, events) && !Agrees(After(s, events))
  {
    var r := [Range({Graphics}, 0, 1)];
    var s0 := Begun(map[1 := r, 2 := r], bytes);
    var e0, e1, e2, e3 := Binding(Graphics, 1), Pushing(Push({Graphics}, 0, [1])),
                          Pushing(Push({Compute}, 0, [2])), Binding(Graphics, 2);
    var s1 := Step(s0, e0);
    var s2 := Step(s1, e1);
    var s3 := Step(s2, e2);
    var s4 := Step(s3, e3);
    assert Covers(r[0].stages, r[0].offset, r[0].size, Graphics, 0);
    ReplayWrites(DriverBind(s3.driver, Graphics, 2).roots, r, s3.cmd.bytes, Graphics, 0);
    assert s2.last(Graphics, 0) == Some(1);
    assert s3.last(Graphics, 0) == s2.last(Graphics, 0) && s3.cmd.bytes[0] == 2;
    assert Visible(s4, Graphics, 0) && s4.driver.roots(Graphics, 0) == Some(2);
    RunCons(s3, e3, []);
    RunCons(s2, e2, [e3]);
    RunCons(s1, e1, [e2, e3]);
    RunCons(s0, e0, [e1, e2, e3]);
  }
}
