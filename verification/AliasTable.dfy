/** The table of images in ika_dzn_fix.c (alias_add, alias_find_locked, alias_contains, alias_remove): probing like
    PcTable's, but adding stops at the first tombstone without looking for the handle behind it. */
module AliasTable {
  import opened Bytes
  import opened PcTable

  predicate Passable(images: seq<nat>, h: nat, j: nat)
    requires j < |images|
  {
    var home := Home(h, |images|);
    forall i | 0 <= i < ProbeOf(home, j, |images|) :: images[At(home, i, |images|)] != EMPTY
  }

  /** No handle lies behind an empty slot of its probe sequence. */
  predicate NoGaps(images: seq<nat>) {
    forall j | 0 <= j < |images| && IsHandle(images[j]) :: Passable(images, images[j], j)
  }

  /** Where alias_add's loop stops: the first slot that is free, removed or holds the handle. */
  predicate AddsAt(images: seq<nat>, h: nat, j: nat) {
    && j < |images| && (images[j] <= REMOVED || images[j] == h)
    && var home := Home(h, |images|);
       forall i | 0 <= i < ProbeOf(home, j, |images|) ::
         IsHandle(images[At(home, i, |images|)]) && images[At(home, i, |images|)] != h
  }

  /** A tombstone on the way to a slot that holds the handle. */
  predicate TombstoneBefore(images: seq<nat>, h: nat) {
    exists k, i ::
      && 0 <= k < |images| && images[k] == h
      && 0 <= i < ProbeOf(Home(h, |images|), k, |images|)
      && images[At(Home(h, |images|), i, |images|)] == REMOVED
  }

  lemma WellProbedHasNoGaps(images: seq<nat>)
    requires WellProbed(images)
    ensures NoGaps(images)
  {
    forall j | 0 <= j < |images| && IsHandle(images[j]) ensures Passable(images, images[j], j) {
      assert Reachable(images, images[j], j);
    }
  }

  lemma HandlesUpdated(keys: seq<nat>, j: nat, key: nat)
    requires j < |keys| && IsHandle(key) && (IsHandle(keys[j]) ==> keys[j] == key)
    ensures Handles(keys[j := key]) == Handles(keys) + {key}
  {
    var after := keys[j := key];
    forall k | k in Handles(keys) ensures k in Handles(after) {
      var i :| 0 <= i < |keys| && keys[i] == k && IsHandle(k);
      assert after[i] == k;
    }
    assert after[j] == key;
  }

  /** Adding always makes the handle a member, next to the members there were. */
  lemma AddAdds(images: seq<nat>, h: nat, j: nat)
    requires NoGaps(images) && IsHandle(h) && AddsAt(images, h, j)
    ensures NoGaps(images[j := h]) && Handles(images[j := h]) == Handles(images) + {h}
  {
    var after := images[j := h];
    forall k | 0 <= k < |after| && IsHandle(after[k]) ensures Passable(after, after[k], k) {
      assert k != j ==> Passable(images, images[k], k);
    }
    HandlesUpdated(images, j, h);
  }

  predicate Twice(images: seq<nat>, h: nat) {
    exists j, k :: 0 <= j < k < |images| && images[j] == h && images[k] == h
  }

  lemma GapEndsSearch(images: seq<nat>, h: nat, j: nat)
    requires NoGaps(images) && IsHandle(h) && j < |images|
    requires Reachable(images, h, j) && images[j] == EMPTY
    ensures h !in images
  {
    forall k | 0 <= k < |images| ensures images[k] != h {
      if images[k] == h {
        assert Passable(images, h, k);
        SameProbe(Home(h, |images|), j, k, |images|);
        assert false;
      }
    }
  }

  lemma RemoveOne(images: seq<nat>, h: nat, r: nat)
    requires NoGaps(images) && IsHandle(h) && r < |images| && images[r] == h
    ensures NoGaps(images[r := REMOVED])
    ensures h in Handles(images[r := REMOVED]) <==> Twice(images, h)
    ensures Handles(images[r := REMOVED]) - {h} == Handles(images) - {h}
    ensures WellProbed(images) ==> WellProbed(images[r := REMOVED])
  {
    var after := images[r := REMOVED];
    forall k | 0 <= k < |after| && IsHandle(after[k]) ensures Passable(after, after[k], k) {
      assert Passable(images, images[k], k);
    }
    if WellProbed(images) {
      RemoveKeeps(images, r);
    }
    forall k | k in Handles(images) && k != h ensures k in Handles(after) {
      var i :| 0 <= i < |images| && images[i] == k;
      assert after[i] == k;
    }
    if j, k :| 0 <= j < k < |images| && images[j] == h && images[k] == h {
      assert after[if j == r then k else j] == h;
    }
  }

  /** The table stays free of duplicates exactly if no tombstone lies before the handle, in particular if the handle was
      not there. */
  lemma AddIsCleanIff(images: seq<nat>, h: nat, j: nat)
    requires WellProbed(images) && IsHandle(h) && AddsAt(images, h, j)
    ensures WellProbed(images[j := h]) <==> !TombstoneBefore(images, h)
    ensures Twice(images[j := h], h) <==> TombstoneBefore(images, h)
    ensures h !in images ==> !TombstoneBefore(images, h)
    ensures Handles(images[j := h]) == Handles(images) + {h}
  {
    WellProbedHasNoGaps(images);
    AddAdds(images, h, j);
    var after := images[j := h];
    if k :| 0 <= k < |images| && images[k] == h && k != j {
      assert Reachable(images, h, k);
      assert ProbeOf(Home(h, |images|), j, |images|) < ProbeOf(Home(h, |images|), k, |images|) by {
        SameProbe(Home(h, |images|), j, k, |images|);
      }
      assert images[At(Home(h, |images|), ProbeOf(Home(h, |images|), j, |images|), |images|)] == REMOVED;
      assert after[j] == after[k] == h;
      if WellProbed(after) {
        KeysAreUnique(after, j, k);
      }
      assert Twice(after, h) by {
        assert j < k || k < j;
      }
    } else {
      assert Reachable(images, h, j);
      FillKeeps(images, j, h);
      assert !TombstoneBefore(images, h);
    }
  }

  /** One removal undoes the addition under the same condition; otherwise the handle is still there. */
  lemma RemovalUndoesIff(images: seq<nat>, h: nat, j: nat, r: nat)
    requires WellProbed(images) && IsHandle(h) && AddsAt(images, h, j)
    requires r < |images| && images[j := h][r] == h
    ensures h in Handles(images[j := h][r := REMOVED]) <==> TombstoneBefore(images, h)
    ensures Handles(images[j := h][r := REMOVED]) == Handles(images) - {h} <==> !TombstoneBefore(images, h)
  {
    AddIsCleanIff(images, h, j);
    WellProbedHasNoGaps(images);
    AddAdds(images, h, j);
    RemoveOne(images[j := h], h, r);
    var after := images[j := h][r := REMOVED];
    assert Handles(after) - {h} == Handles(images) - {h};
    assert h !in Handles(after) ==> Handles(after) == Handles(after) - {h};
  }

  /** A table to which it is added twice: a tombstone in the handle's home slot, and the handle in the next one. */
  lemma AddsTwice()
    ensures var images, h := [REMOVED, 16], 16;
      && WellProbed(images) && AddsAt(images, h, 0) && TombstoneBefore(images, h)
      && Twice(images[0 := h], h) && h in Handles(images[0 := h][0 := REMOVED])
  {
    var images: seq<nat>, h: nat := [REMOVED, 16], 16;
    assert Home(h, 2) == 0 && At(0, 0, 2) == 0 && ProbeOf(0, 1, 2) == 1;
    assert images[1] == h && images[At(Home(h, 2), 0, 2)] == REMOVED;
    assert images[0 := h][0] == h && images[0 := h][1] == h;
    assert images[0 := h][0 := REMOVED][1] == h;
  }

  class Images {
    const slots: array<nat>

    ghost predicate Valid()
      reads this, slots
    {
      slots.Length > 0 && NoGaps(slots[..])
    }

    /** The static table, of zeros. */
    constructor (size: nat)
      requires size > 0
      ensures Valid() && WellProbed(slots[..]) && fresh(slots) && slots.Length == size && Handles(slots[..]) == {}
    {
      slots := new nat[size](_ => EMPTY);
    }

    /** alias_add: a full table leaves the handle out. */
    method Add(h: nat) returns (ghost at: Option<nat>)
      requires Valid() && IsHandle(h)
      modifies slots
      ensures Valid()
      ensures at.Some? ==> AddsAt(old(slots[..]), h, at.value) && slots[..] == old(slots[..])[at.value := h]
      ensures at == None ==> Full(slots[..]) && h !in slots[..] && slots[..] == old(slots[..])
    {
      var size := slots.Length;
      ghost var home := Home(h, size);
      for i := 0 to size
        invariant slots[..] == old(slots[..])
        invariant forall i' | 0 <= i' < i :: IsHandle(slots[At(home, i', size)]) && slots[At(home, i', size)] != h
      {
        ProbeIsCyclic(h, i, size);
        var j := (h / 8 + i) % size;
        if slots[j] <= REMOVED || slots[j] == h {
          assert AddsAt(slots[..], h, j);
          AddAdds(slots[..], h, j);
          slots[j] := h;
          assert slots[..] == old(slots[..])[j := h];
          return Some(j);
        }
      }
      forall k | 0 <= k < size ensures IsHandle(slots[k]) && slots[k] != h {
        assert k == At(home, ProbeOf(home, k, size), size);
      }
      return None;
    }

    /** alias_find_locked: the first slot that holds the handle. */
    method FindLocked(h: nat) returns (slot: Option<nat>)
      requires Valid() && IsHandle(h)
      ensures slot.Some? ==> slot.value < slots.Length && slots[slot.value] == h
                             && Reachable(slots[..], h, slot.value)
      ensures slot == None <==> h !in slots[..]
    {
      var size := slots.Length;
      ghost var home := Home(h, size);
      for i := 0 to size
        invariant forall i' | 0 <= i' < i :: slots[At(home, i', size)] != EMPTY && slots[At(home, i', size)] != h
      {
        ProbeIsCyclic(h, i, size);
        var j := (h / 8 + i) % size;
        assert ProbeOf(home, j, size) == i;
        assert Reachable(slots[..], h, j);
        if slots[j] == h {
          return Some(j);
        }
        if slots[j] == EMPTY {
          GapEndsSearch(slots[..], h, j);
          return None;
        }
      }
      forall k | 0 <= k < size ensures slots[k] != h {
        assert k == At(home, ProbeOf(home, k, size), size);
      }
      return None;
    }

    method Contains(h: nat) returns (found: bool)
      requires Valid() && IsHandle(h)
      ensures found <==> h in Handles(slots[..])
    {
      var slot := FindLocked(h);
      found := slot != None;
    }

    /** alias_remove: removes one occurrence, which is all of them unless the handle was there twice. */
    method Remove(h: nat)
      requires Valid() && IsHandle(h)
      modifies slots
      ensures Valid()
      ensures h in Handles(slots[..]) <==> Twice(old(slots[..]), h)
      ensures Handles(slots[..]) - {h} == Handles(old(slots[..])) - {h}
      ensures WellProbed(old(slots[..])) ==> WellProbed(slots[..])
    {
      var slot := FindLocked(h);
      if slot.Some? {
        RemoveOne(slots[..], h, slot.value);
        ghost var after := slots[..][slot.value := REMOVED];
        slots[slot.value] := REMOVED;
        assert slots[..] == after;
      }
    }
  }
}
