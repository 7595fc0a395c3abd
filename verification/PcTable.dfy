/** The open-addressing tables of ika_dzn_fix.c (pc_slot, pc_remove): cyclic probing from the handle's home slot, with
    tombstones. The table is proved to be a map from handles to entries. */
module PcTable {
  import opened Arithmetic
  import opened Bytes

  const EMPTY: nat := 0
  const REMOVED: nat := 1

  predicate IsHandle(key: nat) {
    key > REMOVED
  }

  /** Where probing for the key starts. */
  function Home(key: nat, size: nat): (home: nat)
    requires size > 0
    ensures home < size
  {
    (key / 8) % size
  }

  /** The slot that probe `i` from `home` looks at. */
  function At(home: nat, i: nat, size: nat): (j: nat)
    requires home < size && i < size
    ensures j < size
  {
    if home + i < size then home + i else home + i - size
  }

  /** The probe that looks at slot `j`. */
  function ProbeOf(home: nat, j: nat, size: nat): (i: nat)
    requires home < size && j < size
    ensures i < size && At(home, i, size) == j
  {
    if j >= home then j - home else j + size - home
  }

  lemma ProbeIsCyclic(key: nat, i: nat, size: nat)
    requires i < size
    ensures (key / 8 + i) % size == At(Home(key, size), i, size)
  {
    var h, q := Home(key, size), key / 8 / size;
    assert key / 8 + i == size * q + (h + i);
    if h + i < size {
      DivModIs(key / 8 + i, size, q, h + i);
    } else {
      assert key / 8 + i == size * (q + 1) + (h + i - size);
      DivModIs(key / 8 + i, size, q + 1, h + i - size);
    }
  }

  /** No probe before slot `j` would end a search for the key: none of them is empty, none holds the key. */
  predicate Reachable(keys: seq<nat>, key: nat, j: nat)
    requires j < |keys|
  {
    var home := Home(key, |keys|);
    forall i | 0 <= i < ProbeOf(home, j, |keys|) ::
      keys[At(home, i, |keys|)] != EMPTY && keys[At(home, i, |keys|)] != key
  }

  predicate WellProbed(keys: seq<nat>) {
    forall j | 0 <= j < |keys| && IsHandle(keys[j]) :: Reachable(keys, keys[j], j)
  }

  /** No key occurs twice. */
  lemma KeysAreUnique(keys: seq<nat>, j: nat, k: nat)
    requires WellProbed(keys) && j < |keys| && k < |keys|
    requires IsHandle(keys[j]) && keys[j] == keys[k]
    ensures j == k
  {
    var home := Home(keys[j], |keys|);
    var p, q := ProbeOf(home, j, |keys|), ProbeOf(home, k, |keys|);
    assert Reachable(keys, keys[j], j) && Reachable(keys, keys[k], k);
    assert p == q;
  }

  /** Filling a slot that a search for the key passes or ends at keeps every other key reachable. */
  lemma FillKeeps(keys: seq<nat>, j: nat, key: nat)
    requires WellProbed(keys) && j < |keys| && IsHandle(key)
    requires keys[j] == key || (key !in keys && keys[j] <= REMOVED)
    requires Reachable(keys, key, j)
    ensures WellProbed(keys[j := key])
  {
    var after := keys[j := key];
    forall k | 0 <= k < |after| && IsHandle(after[k]) ensures Reachable(after, after[k], k) {
      if k != j {
        assert Reachable(keys, keys[k], k);
        if after[k] == key {
          KeysAreUnique(keys, j, k);
        }
      }
    }
  }

  /** A tombstone keeps every other key reachable. */
  lemma RemoveKeeps(keys: seq<nat>, j: nat)
    requires WellProbed(keys) && j < |keys|
    ensures WellProbed(keys[j := REMOVED])
  {
    var after := keys[j := REMOVED];
    forall k | 0 <= k < |after| && IsHandle(after[k]) ensures Reachable(after, after[k], k) {
      assert Reachable(keys, keys[k], k);
    }
  }

  predicate Full(keys: seq<nat>) {
    forall j | 0 <= j < |keys| :: IsHandle(keys[j])
  }

  lemma SameProbe(home: nat, j: nat, k: nat, size: nat)
    requires home < size && j < size && k < size
    ensures j != k ==> ProbeOf(home, j, size) != ProbeOf(home, k, size)
  {
  }

  /** An empty slot where no earlier probe found the key ends the search. */
  lemma EmptyEndsSearch(keys: seq<nat>, key: nat, j: nat)
    requires WellProbed(keys) && j < |keys| && IsHandle(key)
    requires Reachable(keys, key, j) && keys[j] == EMPTY
    ensures key !in keys
  {
    forall k | 0 <= k < |keys| ensures keys[k] != key {
      if keys[k] == key {
        assert Reachable(keys, key, k);
        SameProbe(Home(key, |keys|), j, k, |keys|);
        assert false;
      }
    }
  }

  /** The first slot on the key's way that holds no handle. */
  predicate FirstFree(keys: seq<nat>, key: nat, j: nat)
    requires j < |keys|
  {
    var home := Home(key, |keys|);
    keys[j] <= REMOVED && forall i | 0 <= i < ProbeOf(home, j, |keys|) :: IsHandle(keys[At(home, i, |keys|)])
  }

  /** The result of a search or, with `add`, of a search for a slot to fill. */
  predicate Slotted(keys: seq<nat>, key: nat, add: bool, slot: Option<nat>) {
    && (slot.Some? ==> slot.value < |keys| && Reachable(keys, key, slot.value))
    && if key in keys then slot.Some? && keys[slot.value] == key
       else if add && !Full(keys) then slot.Some? && FirstFree(keys, key, slot.value)
       else slot == None
  }

  /** The slot that pc_slot looks at in its k-th step. */
  function Probed(key: nat, k: nat, size: nat): (j: nat)
    requires size > 0
    ensures j < size
  {
    (key / 8 + k) % size
  }

  /** Where a key goes that is not in the table: to the slot of the first step that finds no handle. */
  lemma SlotIs(keys: seq<nat>, key: nat, slot: nat) returns (i: nat)
    requires keys != [] && key !in keys && Slotted(keys, key, true, Some(slot))
    ensures i < |keys| && slot == Probed(key, i, |keys|) && keys[slot] <= 1
    ensures forall k | 0 <= k < i :: keys[Probed(key, k, |keys|)] > 1
  {
    var home := Home(key, |keys|);
    i := ProbeOf(home, slot, |keys|);
    ProbeIsCyclic(key, i, |keys|);
    assert !Full(keys);
    forall k | 0 <= k < i ensures keys[Probed(key, k, |keys|)] > 1 {
      ProbeIsCyclic(key, k, |keys|);
      assert IsHandle(keys[At(home, k, |keys|)]);
    }
  }

  /** What pc_slot knows after `n` probes: `removed` is the first tombstone. */
  predicate Passed(keys: seq<nat>, key: nat, n: nat, removed: Option<nat>)
    requires |keys| > 0 && n <= |keys|
  {
    var home, size := Home(key, |keys|), |keys|;
    && (forall i | 0 <= i < n :: keys[At(home, i, size)] != EMPTY && keys[At(home, i, size)] != key)
    && if removed.Some? then removed.value < size && ProbeOf(home, removed.value, size) < n
                             && FirstFree(keys, key, removed.value)
       else forall i | 0 <= i < n :: IsHandle(keys[At(home, i, size)])
  }

  lemma PassedAll(keys: seq<nat>, key: nat, removed: Option<nat>)
    requires |keys| > 0 && Passed(keys, key, |keys|, removed)
    ensures key !in keys && (removed == None ==> Full(keys))
    ensures removed.Some? ==> Reachable(keys, key, removed.value) && !Full(keys)
  {
    var home, size := Home(key, |keys|), |keys|;
    forall k | 0 <= k < size ensures keys[k] != key && (removed == None ==> IsHandle(keys[k])) {
      assert k == At(home, ProbeOf(home, k, size), size);
    }
  }

  function Handles(keys: seq<nat>): set<nat> {
    set j | 0 <= j < |keys| && IsHandle(keys[j]) :: keys[j]
  }

  lemma HandlesSnoc(keys: seq<nat>, last: nat)
    ensures Handles(keys + [last]) == Handles(keys) + (if IsHandle(last) then {last} else {})
  {
    var all := keys + [last];
    forall k | k in Handles(keys) ensures k in Handles(all) {
      var j :| 0 <= j < |keys| && keys[j] == k;
      assert all[j] == k;
    }
    assert all[|keys|] == last;
  }

  /** Distinct handles are as many as there are slots exactly if the table is full. */
  lemma {:induction false} CountHandles(keys: seq<nat>)
    requires forall j, k | 0 <= j < k < |keys| && IsHandle(keys[j]) :: keys[j] != keys[k]
    ensures |Handles(keys)| <= |keys|
    ensures |Handles(keys)| == |keys| <==> Full(keys)
  {
    if keys != [] {
      var init, last := keys[..|keys| - 1], keys[|keys| - 1];
      assert keys == init + [last];
      CountHandles(init);
      HandlesSnoc(init, last);
      if IsHandle(last) {
        assert last !in Handles(init);
      }
      assert Full(keys) <==> Full(init) && IsHandle(last);
    }
  }

  class Table<V(0)> {
    const keys: array<nat>
    const values: array<V>
    ghost var entries: map<nat, V>

    ghost function Arrays(): set<object> {
      {keys as object, values as object}
    }

    ghost predicate Valid()
      reads this, keys, values
    {
      && keys.Length == values.Length > 0 && keys as object != values
      && WellProbed(keys[..])
      && (forall j | 0 <= j < keys.Length && IsHandle(keys[j]) ::
            keys[j] in entries && entries[keys[j]] == values[j])
      && (forall k | k in entries :: IsHandle(k) && k in keys[..])
    }

    constructor (size: nat)
      requires size > 0
      ensures Valid() && fresh(keys) && fresh(values) && keys.Length == size && entries == map[]
    {
      keys := new nat[size](_ => EMPTY);
      values := new V[size];
      entries := map[];
    }

    /** pc_slot. */
    method Slot(key: nat, add: bool) returns (slot: Option<nat>)
      requires Valid() && IsHandle(key)
      ensures Slotted(keys[..], key, add, slot)
    {
      var size: nat, removed: Option<nat> := keys.Length, None;
      ghost var home := Home(key, size);
      for i := 0 to size
        invariant Passed(keys[..], key, i, removed) == true
      {
        ProbeIsCyclic(key, i, size);
        var j := (key / 8 + i) % size;
        assert ProbeOf(home, j, size) == i && Reachable(keys[..], key, j);
        if keys[j] == key {
          return Some(j);
        }
        if keys[j] == REMOVED && removed == None {
          removed := Some(j);
        }
        if keys[j] == EMPTY {
          EmptyEndsSearch(keys[..], key, j);
          return if !add then None else if removed.Some? then removed else Some(j);
        }
      }
      PassedAll(keys[..], key, removed);
      return if add then removed else None;
    }

    method Find(key: nat) returns (v: Option<V>)
      requires Valid() && IsHandle(key)
      ensures v == if key in entries then Some(entries[key]) else None
    {
      var slot := Slot(key, false);
      if slot == None {
        return None;
      }
      return Some(values[slot.value]);
    }

    /** The caller's use of a slot that pc_slot gave it. */
    method Fill(slot: nat, key: nat, v: V)
      requires Valid() && IsHandle(key) && Slotted(keys[..], key, true, Some(slot))
      modifies this`entries, keys, values
      ensures Valid() && entries == old(entries)[key := v]
    {
      FillKeeps(keys[..], slot, key);
      ghost var after := keys[..][slot := key];
      forall j | 0 <= j < keys.Length && j != slot ensures after[j] != key {
        if after[j] == key {
          KeysAreUnique(after, j, slot);
        }
      }
      keys[slot], values[slot] := key, v;
      entries := entries[key := v];
      assert keys[..] == after;
      assert key in keys[..];
      forall k | k in entries && k != key ensures k in keys[..] {
        var j :| 0 <= j < keys.Length && old(keys[..])[j] == k;
        assert after[j] == k;
      }
    }

    /** No slot is free exactly when there are as many entries as slots. */
    lemma FullIff()
      requires Valid()
      ensures Full(keys[..]) <==> |entries| == keys.Length
      ensures |entries| <= keys.Length
    {
      assert entries.Keys == Handles(keys[..]);
      forall j, k | 0 <= j < k < keys.Length && IsHandle(keys[j]) ensures keys[j] != keys[k] {
        if keys[j] == keys[k] {
          KeysAreUnique(keys[..], j, k);
        }
      }
      CountHandles(keys[..]);
    }

    /** pc_slot with add, and the entry if there is room for it. */
    method Put(key: nat, v: V) returns (ok: bool)
      requires Valid() && IsHandle(key)
      modifies this`entries, keys, values
      ensures Valid() && (ok <==> key in old(entries) || |old(entries)| < keys.Length)
      ensures entries == if ok then old(entries)[key := v] else old(entries)
    {
      var slot := Slot(key, true);
      FullIff();
      if slot == None {
        return false;
      }
      Fill(slot.value, key, v);
      return true;
    }

    /** pc_remove. */
    method Remove(key: nat)
      requires Valid() && IsHandle(key)
      modifies this`entries, keys
      ensures Valid() && entries == old(entries) - {key}
    {
      var slot := Slot(key, false);
      if slot.Some? {
        RemoveKeeps(keys[..], slot.value);
        ghost var before := keys[..];
        forall j | 0 <= j < keys.Length && j != slot.value ensures before[j] != key {
          if before[j] == key {
            KeysAreUnique(before, j, slot.value);
          }
        }
        keys[slot.value] := REMOVED;
        assert keys[..] == before[slot.value := REMOVED];
        entries := entries - {key};
        forall k | k in entries ensures k in keys[..] {
          var j :| 0 <= j < keys.Length && before[j] == k;
          assert keys[..][j] == k;
        }
      }
    }
  }
}
