/** The entry points of item 7 of ika_dzn_fix.c over the three tables, proved against the functions of PushConstants. */
module PushConstantLayer {
  import opened Bytes
  import opened PcTable
  import opened PushConstants

  const PC_LAYOUTS: nat := 4096
  const PC_PIPELINES: nat := 16384
  const PC_CMDBUFS: nat := 4096

  /** What becomes of an entry put into a table with room for `size` of them. */
  function PutIn(entries: map<nat, nat>, size: nat, key: nat, v: nat): map<nat, nat> {
    if key in entries || |entries| < size then entries[key := v] else entries
  }

  /** pc_add_pipelines: null handles are skipped, and so is what does not fit. */
  function Registered(entries: map<nat, nat>, size: nat, pipelines: seq<nat>, layouts: seq<nat>): map<nat, nat>
    requires |pipelines| == |layouts|
    decreases |pipelines|
  {
    if pipelines == [] then entries
    else
      var next :=
        if pipelines[0] == 0 || layouts[0] == 0 then entries else PutIn(entries, size, pipelines[0], layouts[0]);
      Registered(next, size, pipelines[1..], layouts[1..])
  }

  lemma Larger(a: set<nat>, b: set<nat>)
    requires a <= b
    ensures |a| <= |b|
  {
    assert b == a + (b - a);
  }

  /** With room for all of them, each pipeline is found with the layout that was created for it last. */
  lemma {:induction false} RegistersAll(entries: map<nat, nat>, size: nat, pipelines: seq<nat>, layouts: seq<nat>)
    requires |pipelines| == |layouts| && |entries| + |pipelines| <= size
    requires forall i, j | 0 <= i < j < |pipelines| && pipelines[i] != 0 :: pipelines[i] != pipelines[j]
    ensures var after := Registered(entries, size, pipelines, layouts);
      && (forall i | 0 <= i < |pipelines| && pipelines[i] != 0 && layouts[i] != 0 ::
            pipelines[i] in after && after[pipelines[i]] == layouts[i])
      && (forall k | k !in pipelines :: if k in entries then k in after && after[k] == entries[k] else k !in after)
    decreases |pipelines|
  {
    if pipelines != [] {
      var p, l := pipelines[0], layouts[0];
      var next := if p == 0 || l == 0 then entries else PutIn(entries, size, p, l);
      assert |next| <= |entries| + 1 by {
        assert next.Keys <= entries.Keys + {p};
        assert |next.Keys| <= |entries.Keys + {p}| by {
          Larger(next.Keys, entries.Keys + {p});
        }
      }
      RegistersAll(next, size, pipelines[1..], layouts[1..]);
      assert p != 0 ==> p !in pipelines[1..];
      assert forall i | 0 < i < |pipelines| ::
          pipelines[i] == pipelines[1..][i - 1] && layouts[i] == layouts[1..][i - 1];
    }
  }

  /** A full table keeps the entries that it has; only pipelines that it knows get new layouts. */
  lemma {:induction false} FullStays(entries: map<nat, nat>, size: nat, pipelines: seq<nat>, layouts: seq<nat>)
    requires |pipelines| == |layouts| && |entries| >= size
    ensures Registered(entries, size, pipelines, layouts).Keys == entries.Keys
    decreases |pipelines|
  {
    if pipelines != [] {
      var p, l := pipelines[0], layouts[0];
      var next := if p == 0 || l == 0 then entries else PutIn(entries, size, p, l);
      assert next.Keys == entries.Keys && |next| == |next.Keys| == |entries.Keys|;
      FullStays(next, size, pipelines[1..], layouts[1..]);
    }
  }

  function Elements(s: seq<nat>): set<nat> {
    set x | x in s
  }

  function Without(entries: map<nat, CmdBuf>, s: seq<nat>): map<nat, CmdBuf> {
    entries - Elements(s)
  }

  lemma WithoutNext(entries: map<nat, CmdBuf>, s: seq<nat>, i: nat)
    requires i < |s|
    ensures Without(entries, s[..i + 1]) == Without(entries, s[..i]) - {s[i]}
  {
    assert s[..i + 1] == s[..i] + [s[i]];
    assert Elements(s[..i + 1]) == Elements(s[..i]) + {s[i]};
  }

  method Keeps(ranges: seq<Range>) returns (keeps: bool)
    ensures keeps <==> Kept(ranges)
  {
    if ranges == [] || |ranges| > PC_RANGES {
      return false;
    }
    for i := 0 to |ranges|
      invariant forall j | 0 <= j < i :: ranges[j].offset + ranges[j].size <= PC_BYTES
    {
      if ranges[i].offset + ranges[i].size > PC_BYTES {
        return false;
      }
    }
    return true;
  }

  /** The loop over the ranges that pushes them again. */
  method PushAgain(ranges: seq<Range>, bytes: Shadow) returns (again: seq<Push>)
    requires forall i | 0 <= i < |ranges| :: ranges[i].offset + ranges[i].size <= PC_BYTES
    ensures again == PushesOf(ranges, bytes)
  {
    again := [];
    for i := 0 to |ranges|
      invariant again == PushesOf(ranges, bytes)[..i]
    {
      var r := ranges[i];
      again := again + [Push(r.stages, r.offset, bytes[r.offset..r.offset + r.size])];
    }
  }

  class Layer {
    const layouts: Table<seq<Range>>
    const pipelines: Table<nat>
    const cmdbufs: Table<CmdBuf>

    ghost predicate Tables()
      reads layouts, layouts.keys, layouts.values, pipelines, pipelines.keys, pipelines.values
      reads cmdbufs, cmdbufs.keys, cmdbufs.values
    {
      && layouts.Valid() && pipelines.Valid() && cmdbufs.Valid()
      && layouts as object != pipelines && layouts as object != cmdbufs && pipelines as object != cmdbufs
      && layouts.Arrays() !! pipelines.Arrays() !! cmdbufs.Arrays()
      && pipelines.keys.Length == PC_PIPELINES && layouts.keys.Length == PC_LAYOUTS && cmdbufs.keys.Length == PC_CMDBUFS
    }

    ghost predicate Valid()
      reads this, layouts, layouts.keys, layouts.values, pipelines, pipelines.keys, pipelines.values
      reads cmdbufs, cmdbufs.keys, cmdbufs.values
    {
      && Tables()
      && AllKept(layouts.entries)
      && (forall k | k in pipelines.entries :: IsHandle(pipelines.entries[k]))
    }

    constructor ()
      ensures Valid() && layouts.entries == map[] && pipelines.entries == map[] && cmdbufs.entries == map[]
      ensures layouts.keys.Length == 4096 && pipelines.keys.Length == 16384 && cmdbufs.keys.Length == 4096
    {
      layouts := new Table(PC_LAYOUTS);
      pipelines := new Table(PC_PIPELINES);
      cmdbufs := new Table(PC_CMDBUFS);
    }

    method KeepLayout(layout: nat, ranges: seq<Range>)
      requires Valid() && IsHandle(layout) && Kept(ranges)
      modifies layouts`entries, layouts.keys, layouts.values
      ensures Valid()
      ensures layouts.entries == if layout in old(layouts.entries) || |old(layouts.entries)| < PC_LAYOUTS
        then old(layouts.entries)[layout := ranges] else old(layouts.entries)
    {
      var _ := layouts.Put(layout, ranges);
    }

    /** layer_CreatePipelineLayout, after the driver has created it. */
    method CreatePipelineLayout(layout: nat, ranges: seq<Range>)
      requires Valid() && IsHandle(layout)
      modifies layouts`entries, layouts.keys, layouts.values
      ensures Valid()
      ensures layouts.entries ==
        if 1 <= |ranges| <= 4 && (forall i | 0 <= i < |ranges| :: ranges[i].offset + ranges[i].size <= 256)
           && (layout in old(layouts.entries) || |old(layouts.entries)| < 4096)
        then old(layouts.entries)[layout := ranges] else old(layouts.entries)
    {
      var keeps := Keeps(ranges);
      if keeps {
        KeepLayout(layout, ranges);
      }
    }

    method DestroyPipelineLayout(layout: nat)
      requires Valid() && (layout == 0 || IsHandle(layout))
      modifies layouts`entries, layouts.keys
      ensures Valid() && layouts.entries == old(layouts.entries) - {layout}
    {
      if layout != 0 {
        layouts.Remove(layout);
      }
    }

    method AddPipeline(pipeline: nat, layout: nat)
      requires Valid() && (pipeline == 0 || IsHandle(pipeline)) && (layout == 0 || IsHandle(layout))
      modifies pipelines`entries, pipelines.keys, pipelines.values
      ensures Valid()
      ensures pipelines.entries == if pipeline == 0 || layout == 0 then old(pipelines.entries)
        else PutIn(old(pipelines.entries), PC_PIPELINES, pipeline, layout)
    {
      if pipeline != 0 && layout != 0 {
        var _ := pipelines.Put(pipeline, layout);
      }
    }

    /** pc_add_pipelines. */
    method AddPipelines(created: seq<nat>, their: seq<nat>)
      requires Valid() && |created| == |their|
      requires forall i | 0 <= i < |created| ::
                 (created[i] == 0 || IsHandle(created[i])) && (their[i] == 0 || IsHandle(their[i]))
      modifies pipelines`entries, pipelines.keys, pipelines.values
      ensures Valid() && pipelines.entries == Registered(old(pipelines.entries), PC_PIPELINES, created, their)
    {
      for i := 0 to |created|
        invariant Valid() == true
        invariant Registered(pipelines.entries, PC_PIPELINES, created[i..], their[i..])
               == Registered(old(pipelines.entries), PC_PIPELINES, created, their)
      {
        assert created[i..][1..] == created[i + 1..] && their[i..][1..] == their[i + 1..];
        AddPipeline(created[i], their[i]);
      }
    }

    method DestroyPipeline(pipeline: nat)
      requires Valid() && (pipeline == 0 || IsHandle(pipeline))
      modifies pipelines`entries, pipelines.keys
      ensures Valid() && pipelines.entries == old(pipelines.entries) - {pipeline}
    {
      if pipeline != 0 {
        pipelines.Remove(pipeline);
      }
    }

    method Restart(slot: nat, cb: nat)
      requires Valid() && IsHandle(cb) && Slotted(cmdbufs.keys[..], cb, true, Some(slot))
      modifies cmdbufs`entries, cmdbufs.keys, cmdbufs.values
      ensures Valid()
      ensures cmdbufs.entries == old(cmdbufs.entries)[cb := CmdBuf(0, 0, 0, old(cmdbufs.values[slot].bytes))]
    {
      cmdbufs.Fill(slot, cb, CmdBuf(0, 0, 0, cmdbufs.values[slot].bytes));
    }

    /** layer_BeginCommandBuffer: the entry starts over, with the bytes that its slot held, be they its own or those
        of an entry that was removed. */
    method BeginCommandBuffer(cb: nat) returns (ghost slot: Option<nat>)
      requires Valid() && IsHandle(cb)
      modifies cmdbufs`entries, cmdbufs.keys, cmdbufs.values
      ensures Valid() && Slotted(old(cmdbufs.keys[..]), cb, true, slot)
      ensures slot.Some? <==> cb in old(cmdbufs.entries) || |old(cmdbufs.entries)| < PC_CMDBUFS
      ensures cmdbufs.entries == if slot == None then old(cmdbufs.entries)
        else old(cmdbufs.entries)[cb := CmdBuf(0, 0, 0, old(cmdbufs.values[slot.value].bytes))]
      ensures cb in old(cmdbufs.entries) ==> cmdbufs.entries[cb].bytes == old(cmdbufs.entries[cb].bytes)
    {
      var s := cmdbufs.Slot(cb, true);
      slot := s;
      cmdbufs.FullIff();
      if s.Some? {
        Restart(s.value, cb);
      }
    }

    method FreeCommandBuffer(cb: nat)
      requires Valid() && (cb == 0 || IsHandle(cb))
      modifies cmdbufs`entries, cmdbufs.keys
      ensures Valid() && cmdbufs.entries == old(cmdbufs.entries) - {cb}
    {
      if cb != 0 {
        cmdbufs.Remove(cb);
      }
    }

    method FreeCommandBuffers(cbs: seq<nat>)
      requires Valid() && forall i | 0 <= i < |cbs| :: cbs[i] == 0 || IsHandle(cbs[i])
      modifies cmdbufs`entries, cmdbufs.keys
      ensures Valid() && cmdbufs.entries == Without(old(cmdbufs.entries), cbs)
    {
      for i := 0 to |cbs|
        invariant Valid() == true && cmdbufs.entries == Without(old(cmdbufs.entries), cbs[..i])
      {
        WithoutNext(old(cmdbufs.entries), cbs, i);
        FreeCommandBuffer(cbs[i]);
      }
      assert cbs[..|cbs|] == cbs;
    }

    /** The change of a command buffer's entry in place. */
    method Update(cb: nat, c: CmdBuf)
      requires Valid() && IsHandle(cb) && cb in cmdbufs.entries
      modifies cmdbufs`entries, cmdbufs.keys, cmdbufs.values
      ensures Valid() && cmdbufs.entries == old(cmdbufs.entries)[cb := c]
    {
      var _ := cmdbufs.Put(cb, c);
    }

    /** layer_CmdPushConstants, before the call is passed on. */
    method CmdPushConstants(cb: nat, p: Push)
      requires Valid() && IsHandle(cb)
      modifies cmdbufs`entries, cmdbufs.keys, cmdbufs.values
      ensures Valid()
      ensures cmdbufs.entries == if cb in old(cmdbufs.entries)
        then old(cmdbufs.entries)[cb := Record(old(cmdbufs.entries)[cb], p)] else old(cmdbufs.entries)
    {
      if p.offset + |p.values| <= PC_BYTES {
        var c := cmdbufs.Find(cb);
        if c.Some? {
          var bytes := c.value.bytes[..p.offset] + p.values + c.value.bytes[p.offset + |p.values|..];
          var end := if p.offset + |p.values| > c.value.end then p.offset + |p.values| else c.value.end;
          var next := c.value.(bytes := bytes, end := end);
          assert next == Record(c.value, p);
          Update(cb, next);
        }
      }
    }

    /** The ranges to push again at a change to the layout. */
    method Ranges(c: CmdBuf, bp: BindPoint, layout: nat) returns (ranges: seq<Range>)
      requires Valid() && IsHandle(layout) && c.Bound(bp) != layout
      ensures ranges == if Replays(layouts.entries, c, bp, layout) then layouts.entries[layout] else []
    {
      if c.Bound(bp) != 0 && c.end != 0 {
        var l := layouts.Find(layout);
        if l.Some? {
          return l.value;
        }
      }
      return [];
    }

    /** The pushes for these ranges, of the bytes as they are now. */
    method PushesFor(c: CmdBuf, bp: BindPoint, layout: nat) returns (again: seq<Push>)
      requires Valid() && IsHandle(layout) && c.Bound(bp) != layout
      ensures again == Replay(layouts.entries, c, bp, layout)
    {
      var ranges := Ranges(c, bp, layout);
      again := PushAgain(ranges, c.bytes);
    }

    /** layer_CmdBindPipeline for a command buffer that is known and a pipeline with a known layout. */
    method Bind(cb: nat, c: CmdBuf, bp: BindPoint, layout: nat) returns (again: seq<Push>)
      requires Valid() && IsHandle(cb) && IsHandle(layout) && cb in cmdbufs.entries && c == cmdbufs.entries[cb]
      modifies cmdbufs`entries, cmdbufs.keys, cmdbufs.values
      ensures Valid() && cmdbufs.entries == old(cmdbufs.entries)[cb := c.Bind(bp, layout)]
      ensures again == Replay(layouts.entries, c, bp, layout)
    {
      again := [];
      if c.Bound(bp) != layout {
        again := PushesFor(c, bp, layout);
        Update(cb, c.Bind(bp, layout));
      }
    }

    /** layer_CmdBindPipeline, after the call is passed on: the pushes it makes. Other bind points are ignored. */
    method CmdBindPipeline(cb: nat, bindPoint: Option<BindPoint>, pipeline: nat) returns (again: seq<Push>)
      requires Valid() && IsHandle(cb) && IsHandle(pipeline)
      modifies cmdbufs`entries, cmdbufs.keys, cmdbufs.values
      ensures Valid()
      ensures if bindPoint.Some? && pipeline in pipelines.entries && cb in old(cmdbufs.entries) then
                var layout, c := pipelines.entries[pipeline], old(cmdbufs.entries)[cb];
                && again == Replay(layouts.entries, c, bindPoint.value, layout)
                && cmdbufs.entries == old(cmdbufs.entries)[cb := c.Bind(bindPoint.value, layout)]
              else again == [] && cmdbufs.entries == old(cmdbufs.entries)
    {
      if bindPoint == None {
        return [];
      }
      var p := pipelines.Find(pipeline);
      var c := cmdbufs.Find(cb);
      if p == None || c == None {
        return [];
      }
      again := Bind(cb, c.value, bindPoint.value, p.value);
    }
  }
}
