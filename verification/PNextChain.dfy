/** unlink_structs and restore_chain of ika_dzn_fix.c: structs are taken out of a linked pNext chain in place while the
    driver is called, and put back. */
module PNextChain {
  const MAX_UNLINKED: nat := 4

  /** VkBaseOutStructure. */
  class Struct {
    const sType: nat
    var pNext: Struct?

    constructor (sType: nat, pNext: Struct?)
      ensures this.sType == sType && this.pNext == pNext
    {
      this.sType, this.pNext := sType, pNext;
    }
  }

  datatype Unlinked = Unlinked(prev: Struct?, removed: Struct?)

  /** The structs in a chain, in order and without a cycle. */
  ghost predicate Chain(nodes: seq<Struct>)
    reads nodes
  {
    && (forall i | 0 <= i < |nodes| - 1 :: nodes[i].pNext == nodes[i + 1])
    && (nodes != [] ==> nodes[|nodes| - 1].pNext == null)
    && (forall i, j | 0 <= i < j < |nodes| :: nodes[i] != nodes[j])
  }

  /** The nodes without the first `most` of the given type. */
  ghost function Without(nodes: seq<Struct>, sType: nat, most: nat): seq<Struct> {
    if nodes == [] || most == 0 then nodes
    else if nodes[0].sType == sType then Without(nodes[1..], sType, most - 1)
    else [nodes[0]] + Without(nodes[1..], sType, most)
  }

  ghost function Matches(nodes: seq<Struct>, sType: nat): nat {
    if nodes == [] then 0 else (if nodes[0].sType == sType then 1 else 0) + Matches(nodes[1..], sType)
  }

  /** The driver sees none of the structs, unless there are more than MAX_UNLINKED of them: then it sees the rest. */
  lemma {:induction false} WithoutLeaves(nodes: seq<Struct>, sType: nat, most: nat)
    ensures var n := Matches(nodes, sType);
      Matches(Without(nodes, sType, most), sType) == if n <= most then 0 else n - most
    ensures forall x | x in Without(nodes, sType, most) :: x in nodes
  {
    if nodes != [] && most > 0 {
      WithoutLeaves(nodes[1..], sType, if nodes[0].sType == sType then most - 1 else most);
      if nodes[0].sType != sType {
        assert Without(nodes, sType, most)[1..] == Without(nodes[1..], sType, most);
      }
    }
  }

  /** The nodes of other types, in order. */
  ghost function Others(nodes: seq<Struct>, sType: nat): seq<Struct> {
    if nodes == [] then [] else (if nodes[0].sType == sType then [] else [nodes[0]]) + Others(nodes[1..], sType)
  }

  /** Up to some node all of the type are gone and all others stay, in order; behind it nothing changes. */
  lemma {:induction false} WithoutIs(nodes: seq<Struct>, sType: nat, most: nat) returns (i: nat)
    ensures i <= |nodes| && Without(nodes, sType, most) == Others(nodes[..i], sType) + nodes[i..]
    ensures Matches(nodes[..i], sType) == if Matches(nodes, sType) <= most then Matches(nodes, sType) else most
  {
    if nodes == [] || most == 0 {
      i := 0;
    } else {
      var j := WithoutIs(nodes[1..], sType, if nodes[0].sType == sType then most - 1 else most);
      i := j + 1;
      assert nodes[..i][1..] == nodes[1..][..j] && nodes[i..] == nodes[1..][j..];
    }
  }

  /** Where a struct's pNext points once the list is restored: what the first entry about it says. */
  ghost function Restored(list: seq<Unlinked>, x: Struct, now: Struct?): Struct? {
    if list == [] then now
    else if list[0].prev == x then list[0].removed
    else Restored(list[1..], x, now)
  }

  lemma {:induction false} RestoredSnoc(list: seq<Unlinked>, e: Unlinked, x: Struct, now: Struct?)
    ensures Restored(list + [e], x, now) == Restored(list, x, if e.prev == x then e.removed else now)
  {
    if list != [] {
      assert (list + [e])[1..] == list[1..] + [e];
      RestoredSnoc(list[1..], e, x, now);
    } else {
      assert [e][1..] == [];
    }
  }

  /** Links the struct behind `prev` out of the chain. */
  method LinkOut(prev: Struct, ghost kept: seq<Struct>, ghost rest: seq<Struct>)
    requires kept != [] && rest != [] && kept[|kept| - 1] == prev && Chain(kept + rest)
    modifies prev`pNext
    ensures Chain(kept + rest[1..]) && prev.pNext == (if |rest| > 1 then rest[1] else null)
    ensures old(prev.pNext) == rest[0]
  {
    ghost var all, p := kept + rest, |kept| - 1;
    assert all[p] == prev && all[p + 1] == rest[0];
    assert |rest| > 1 ==> all[p + 2] == rest[1];
    assert all[p].pNext == rest[0];
    assert |rest| > 1 ==> all[p + 1].pNext == rest[1];
    assert |rest| == 1 ==> all[p + 1].pNext == null;
    prev.pNext := prev.pNext.pNext;
    ghost var less := kept + rest[1..];
    forall i | 0 <= i < |less| - 1 ensures less[i].pNext == less[i + 1] {
      assert less[i] == all[if i <= p then i else i + 1] && less[i + 1] == all[if i < p then i + 1 else i + 2];
    }
    forall i, j | 0 <= i < j < |less| ensures less[i] != less[j] {
      assert less[i] == all[if i <= p then i else i + 1] && less[j] == all[if j <= p then j else j + 1];
    }
  }

  ghost function Links(nodes: set<Struct>): map<Struct, Struct?>
    reads nodes
  {
    map x | x in nodes :: x.pNext
  }

  /** Restoring the list would make the links of the nodes as they were. */
  ghost predicate Undoes(list: seq<Unlinked>, nodes: set<Struct>, was: map<Struct, Struct?>)
    reads nodes
  {
    && (forall e | e in list :: e.prev in nodes)
    && (forall x | x in nodes :: x in was && Restored(list, x, x.pNext) == was[x])
  }

  lemma Behind(prev: Struct, kept: seq<Struct>, rest: seq<Struct>)
    requires Chain(kept + rest) && kept != [] && kept[|kept| - 1] == prev
    ensures prev.pNext == if rest != [] then rest[0] else null
  {
    assert (kept + rest)[|kept| - 1] == prev;
    assert rest != [] ==> (kept + rest)[|kept|] == rest[0];
  }

  /** Notes the struct behind `prev` and links it out. */
  method Unlink(prev: Struct, out: array<Unlinked>, n: nat, ghost kept: seq<Struct>, ghost rest: seq<Struct>,
                ghost nodes: set<Struct>, ghost was: map<Struct, Struct?>)
    requires kept != [] && rest != [] && kept[|kept| - 1] == prev && Chain(kept + rest)
    requires n < out.Length && prev in nodes && Undoes(out[..n], nodes, was)
    modifies prev`pNext, out
    ensures Chain(kept + rest[1..])
    ensures Undoes(out[..n + 1], nodes, was)
  {
    Behind(prev, kept, rest);
    var e := Unlinked(prev, prev.pNext);
    ghost var list := out[..n];
    out[n] := e;
    assert out[..n + 1] == list + [e];
    LinkOut(prev, kept, rest);
    forall x | x in nodes ensures Restored(list + [e], x, x.pNext) == was[x] {
      RestoredSnoc(list, e, x, x.pNext);
    }
  }

  predicate Within(nodes: seq<Struct>, all: set<Struct>) {
    forall x | x in nodes :: x in all
  }

  lemma WithinTail(nodes: seq<Struct>, all: set<Struct>)
    requires Within(nodes, all) && nodes != []
    ensures nodes[0] in all && Within(nodes[1..], all)
  {
  }

  /** After n removals the chain is `kept` and `rest`. */
  ghost predicate Removed(nodes: seq<Struct>, sType: nat, kept: seq<Struct>, rest: seq<Struct>, n: nat) {
    && n <= MAX_UNLINKED && nodes != []
    && kept + Without(rest, sType, MAX_UNLINKED - n) == [nodes[0]] + Without(nodes[1..], sType, MAX_UNLINKED)
    && n + Matches(rest, sType) == Matches(nodes[1..], sType)
  }

  lemma RemovedStep(nodes: seq<Struct>, sType: nat, kept: seq<Struct>, rest: seq<Struct>, n: nat)
    requires Removed(nodes, sType, kept, rest, n) && rest != [] && n < MAX_UNLINKED
    ensures if rest[0].sType == sType then Removed(nodes, sType, kept, rest[1..], n + 1)
            else Removed(nodes, sType, kept + [rest[0]], rest[1..], n)
    ensures kept + rest == kept + [rest[0]] + rest[1..]
  {
    var less := Without(rest[1..], sType, MAX_UNLINKED - n);
    assert kept + ([rest[0]] + less) == kept + [rest[0]] + less;
  }

  /** unlink_structs, for a head that starts the chain `nodes`: the first MAX_UNLINKED structs of the type are gone,
      and the list undoes it. */
  method UnlinkStructs(head: Struct, sType: nat, out: array<Unlinked>, ghost nodes: seq<Struct>, ghost all: set<Struct>)
    returns (n: nat)
    requires Chain(nodes) && nodes != [] && nodes[0] == head && out.Length == 4
    requires Within(nodes, all)
    modifies all, out
    ensures Chain([head] + Without(nodes[1..], sType, 4))
    ensures n == if Matches(nodes[1..], sType) <= 4 then Matches(nodes[1..], sType) else 4
    ensures Undoes(out[..n], all, old(Links(all)))
  {
    n := 0;
    var prev: Struct := head;
    ghost var kept: seq<Struct>, rest: seq<Struct> := [head], nodes[1..];
    ghost var was := Links(all);
    assert kept + rest == nodes;
    WithinTail(nodes, all);
    while prev.pNext != null && n < MAX_UNLINKED
      invariant n <= MAX_UNLINKED && kept != [] && kept[|kept| - 1] == prev && prev in all
      invariant Chain(kept + rest) == true && Within(rest, all) == true
      invariant Removed(nodes, sType, kept, rest, n) == true
      invariant Undoes(out[..n], all, was) == true
      decreases |rest|
    {
      Behind(prev, kept, rest);
      WithinTail(rest, all);
      RemovedStep(nodes, sType, kept, rest, n);
      var next: Struct := prev.pNext;
      if next.sType == sType {
        Unlink(prev, out, n, kept, rest, all, was);
        n := n + 1;
      } else {
        kept, prev := kept + [next], next;
      }
      rest := rest[1..];
    }
    Behind(prev, kept, rest);
  }

  /** restore_chain. */
  method RestoreChain(list: array<Unlinked>, n: nat, ghost nodes: set<Struct>)
    requires n <= list.Length && forall e | e in list[..n] :: e.prev in nodes
    modifies nodes
    ensures forall x | x in nodes :: x.pNext == Restored(list[..n], x, old(x.pNext))
  {
    var i: nat := n;
    while i > 0
      invariant i <= n
      invariant forall x | x in nodes :: Restored(list[..i], x, x.pNext) == Restored(list[..n], x, old(x.pNext))
    {
      i := i - 1;
      var e := list[i];
      assert list[..i + 1] == list[..i] + [e];
      assert e in list[..n];
      forall x | x in nodes
        ensures Restored(list[..i + 1], x, x.pNext)
             == Restored(list[..i], x, if e.prev == x then e.removed else x.pNext)
      {
        RestoredSnoc(list[..i], e, x, x.pNext);
      }
      e.prev.pNext := e.removed;
    }
  }

  /** Calling the driver in between, which leaves the chain alone, has changed nothing afterwards. */
  method CallWithout(head: Struct, sType: nat, ghost nodes: seq<Struct>, ghost all: set<Struct>)
    requires Chain(nodes) && nodes != [] && nodes[0] == head
    requires Within(nodes, all)
    modifies all
    ensures Chain(nodes)
    ensures forall x | x in all :: x.pNext == old(x.pNext)
  {
    var removed := new Unlinked[MAX_UNLINKED](_ => Unlinked(null, null));
    var n := UnlinkStructs(head, sType, removed, nodes, all);
    RestoreChain(removed, n, all);
  }
}
