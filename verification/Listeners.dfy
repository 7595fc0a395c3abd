/** The port forwards of adb/adb_listeners.cpp and the disconnect lists of adb/transport.cpp that they register in. */
module Listeners {
  import opened Bytes

  const SMART_SOCKET := "*smartsocket*"

  /** alistener. */
  class Listener {
    const localName: string  // as it is when the listener goes on the list
    var connectTo: string
    var transport: Transport?

    constructor (localName: string, connectTo: string)
      ensures this.localName == localName && this.connectTo == connectTo && transport == null
    {
      this.localName, this.connectTo, transport := localName, connectTo, null;
    }

    predicate IsSmartSocket()
      reads this
    {
      connectTo == SMART_SOCKET
    }
  }

  // ---- Lists without duplicates ----

  function Members(s: seq<Listener>): set<Listener> {
    if s == [] then {} else {s[0]} + Members(s[1..])
  }

  lemma {:induction false} MembersAre(s: seq<Listener>)
    ensures forall x :: x in Members(s) <==> x in s
  {
    if s != [] {
      MembersAre(s[1..]);
      assert s == [s[0]] + s[1..];
    }
  }

  predicate Distinct(s: seq<Listener>) {
    s == [] || (s[0] !in Members(s[1..]) && Distinct(s[1..]))
  }

  /** The listeners of a list that are not in `gone`, in order. */
  function Keep(s: seq<Listener>, gone: set<Listener>): (r: seq<Listener>)
    ensures Members(r) == Members(s) - gone && (Distinct(s) ==> Distinct(r))
  {
    if s == [] then []
    else if s[0] in gone then Keep(s[1..], gone)
    else
      var r := [s[0]] + Keep(s[1..], gone);
      assert r[1..] == Keep(s[1..], gone);
      r
  }

  lemma Cons(x: Listener, a: seq<Listener>, b: seq<Listener>)
    ensures [x] + (a + b) == [x] + a + b
  {
  }

  /** Element by element, in order. */
  lemma {:induction false} KeepIs(a: seq<Listener>, x: Listener, b: seq<Listener>, gone: set<Listener>)
    ensures Keep(a + [x] + b, gone) == Keep(a, gone) + (if x in gone then [] else [x]) + Keep(b, gone)
  {
    if a == [] {
      assert ([] + [x] + b)[1..] == b && ([] + [x] + b)[0] == x;
    } else {
      var kept, mid := Keep(a[1..], gone), if x in gone then [] else [x];
      KeepIs(a[1..], x, b, gone);
      assert (a + [x] + b)[0] == a[0] && (a + [x] + b)[1..] == a[1..] + [x] + b;
      Cons(a[0], kept + mid, Keep(b, gone));
      Cons(a[0], kept, mid);
    }
  }

  lemma {:induction false} KeepMore(s: seq<Listener>, a: set<Listener>, b: set<Listener>)
    ensures Keep(Keep(s, a), b) == Keep(s, a + b)
  {
    if s != [] {
      KeepMore(s[1..], a, b);
      if s[0] !in a {
        assert Keep(s, a)[1..] == Keep(s[1..], a);
      }
    }
  }

  lemma {:induction false} KeepAll(s: seq<Listener>, gone: set<Listener>)
    requires Members(s) !! gone
    ensures Keep(s, gone) == s
  {
    if s != [] {
      KeepAll(s[1..], gone);
    }
  }

  lemma {:induction false} Snoc(s: seq<Listener>, x: Listener)
    ensures Members(s + [x]) == Members(s) + {x}
    ensures Distinct(s + [x]) <==> Distinct(s) && x !in Members(s)
  {
    if s == [] {
      assert [x][1..] == [];
    } else {
      Snoc(s[1..], x);
      assert (s + [x])[1..] == s[1..] + [x];
    }
  }

  lemma TakeNext(s: seq<Listener>, i: nat)
    requires i < |s|
    ensures Members(s[..i + 1]) == Members(s[..i]) + {s[i]}
    ensures Distinct(s[..i + 1]) <==> Distinct(s[..i]) && s[i] !in Members(s[..i])
  {
    assert s[..i + 1] == s[..i] + [s[i]];
    Snoc(s[..i], s[i]);
  }

  lemma {:induction false} DistinctTake(s: seq<Listener>, i: nat)
    requires Distinct(s) && i <= |s|
    ensures Distinct(s[..i]) && Members(s[..i]) <= Members(s)
    decreases |s| - i
  {
    if i == |s| {
      assert s[..i] == s;
    } else {
      DistinctTake(s, i + 1);
      TakeNext(s, i);
    }
  }

  /** The element at an index is a member, and in no earlier place. */
  lemma At(s: seq<Listener>, i: nat)
    requires Distinct(s) && i < |s|
    ensures s[i] in Members(s) && s[i] !in Members(s[..i])
  {
    DistinctTake(s, i + 1);
    TakeNext(s, i);
  }

  lemma {:induction false} EraseAt(s: seq<Listener>, i: nat)
    requires Distinct(s) && i < |s|
    ensures Keep(s, {s[i]}) == s[..i] + s[i + 1..]
  {
    if i == 0 {
      KeepAll(s[1..], {s[0]});
    } else {
      EraseAt(s[1..], i - 1);
      At(s[1..], i - 1);
      Cons(s[0], s[1..][..i - 1], s[1..][i..]);
      assert s[..i] == [s[0]] + s[1..][..i - 1] && s[i + 1..] == s[1..][i..];
    }
  }

  predicate OneByName(listeners: set<Listener>) {
    forall k, l | k in listeners && l in listeners && k.localName == l.localName :: k == l
  }

  lemma NewName(listeners: set<Listener>, l: Listener)
    requires OneByName(listeners) && forall k | k in listeners :: k.localName != l.localName
    ensures OneByName(listeners + {l})
  {
  }

  // ---- Transports and the listener list ----

  /** atransport, as far as disconnects go. An adisconnect is identified with the listener that embeds it. */
  class Transport {
    var disconnects: seq<Listener>
    ghost var registered: set<Listener>

    ghost predicate Valid()
      reads this
    {
      Distinct(disconnects) && registered == Members(disconnects)
    }

    constructor ()
      ensures Valid() && disconnects == []
    {
      disconnects, registered := [], {};
    }

    method AddDisconnect(l: Listener)
      requires Valid() && l !in registered
      modifies this
      ensures Valid() && registered == old(registered) + {l} && disconnects == old(disconnects) + [l]
    {
      Snoc(disconnects, l);
      disconnects, registered := disconnects + [l], registered + {l};
    }

    method RemoveDisconnect(l: Listener)
      requires Valid()
      modifies this
      ensures Valid() && registered == old(registered) - {l} && disconnects == Keep(old(disconnects), {l})
    {
      disconnects, registered := Keep(disconnects, {l}), registered - {l};
    }

    method Clear()
      modifies this
      ensures Valid() && disconnects == [] && registered == {}
    {
      disconnects, registered := [], {};
    }
  }

  datatype InstallStatus = Ok | InternalError | CannotBind | CannotRebind | NotFound | NullTransport

  /** What socket_spec_listen did: it failed, it bound the name as it is, or it chose a port, which renames. */
  datatype Listened = ListenFailed | Bound | Resolved(name: string)

  predicate Starred(connectTo: string) {
    connectTo != "" && connectTo[0] == '*'
  }

  /** What the callers of install_listener pass: a forward has a transport and is not to "*..."; the server's own
      sockets are smart and have none. */
  predicate Installable(connectTo: string, transport: Transport?) {
    if transport == null then connectTo == SMART_SOCKET else connectTo != "" && !Starred(connectTo)
  }

  lemma StarredIsSmart(connectTo: string, transport: Transport?)
    requires Installable(connectTo, transport)
    ensures Starred(connectTo) <==> connectTo == SMART_SOCKET
  {
  }

  /** Registration is exact in both directions, for every listener but `except`. */
  ghost predicate Agree(listeners: set<Listener>, transports: set<Transport>, except: Listener?)
    reads listeners, transports
  {
    && (forall l | l in listeners && l != except && l.transport != null ::
          l.transport in transports && l in l.transport.registered)
    && (forall t | t in transports :: t.Valid())
    && (forall t, l | t in transports && l in t.registered && l != except :: l in listeners && l.transport == t)
  }

  lemma AgreeWith(listeners: set<Listener>, transports: set<Transport>, l: Listener)
    requires Agree(listeners, transports, l)
    ensures Agree(listeners + {l}, transports, l) && Agree(listeners - {l}, transports, l)
  {
  }

  lemma AgreeWithUnused(listeners: set<Listener>, transports: set<Transport>, t: Transport)
    requires Agree(listeners, transports, null) && t.Valid() && t.disconnects == []
    ensures Agree(listeners, transports + {t}, null)
  {
  }

  class ListenerList {
    var list: seq<Listener>
    ghost var members: set<Listener>
    ghost var transports: set<Transport>

    /** The list itself. */
    ghost predicate Listed()
      reads this, members
    {
      && Distinct(list) && members == Members(list)
      && (forall l | l in members :: Installable(l.connectTo, l.transport))
      && OneByName(members)
    }

    /** Registration is exact for every listener but `except`. */
    ghost predicate Exact(except: Listener?)
      reads this, members, transports
    {
      Agree(members, transports, except)
    }

    ghost predicate Valid()
      reads this, members, transports
    {
      Listed() && Exact(null)
    }

    constructor ()
      ensures Valid() && list == [] && transports == {}
    {
      list, members, transports := [], {}, {};
    }

    /** A new transport, which nothing has registered with. */
    ghost method Connect(t: Transport)
      requires Valid() && t !in transports && t.Valid() && t.disconnects == []
      modifies this`transports
      ensures Valid() && transports == old(transports) + {t} && list == old(list)
    {
      AgreeWithUnused(members, transports, t);
      transports := transports + {t};
    }

    /** Where `l` is registered. */
    ghost predicate Registers(l: Listener, at: Transport?)
      reads transports, this`transports
    {
      (at != null ==> at in transports) && forall t | t in transports :: l in t.registered <==> t == at
    }

    lemma ExactInAll(l: Listener)
      requires Exact(l) && Registers(l, if l in members then l.transport else null)
      ensures Exact(null)
    {
    }

    lemma RegistersOnce(l: Listener)
      requires Exact(null) && l in members
      ensures Exact(l) && Registers(l, l.transport)
    {
    }

    /** Takes a listener off the list; it stays registered. */
    method Unlist(l: Listener)
      requires Listed() && Exact(l) && l in members
      modifies this`list, this`members
      ensures Listed() && Exact(l) && members == old(members) - {l} && list == Keep(old(list), {l})
    {
      AgreeWith(members, transports, l);
      list, members := Keep(list, {l}), members - {l};
    }

    method Deregister(l: Listener)
      requires Exact(l) && Registers(l, l.transport)
      modifies l.transport
      ensures Exact(l) && Registers(l, null)
      ensures l.transport != null ==> l.transport.disconnects == Keep(old(l.transport.disconnects), {l})
    {
      if l.transport != null {
        l.transport.RemoveDisconnect(l);
      }
    }

    lemma IsUnknown(l: Listener)
      requires Exact(null) && l !in members
      ensures Exact(l) && Registers(l, null)
    {
    }

    method Register(l: Listener)
      requires Exact(l) && Registers(l, null) && l.transport != null && l.transport in transports
      modifies l.transport
      ensures Exact(l) && Registers(l, l.transport)
      ensures l.transport.disconnects == old(l.transport.disconnects) + [l]
    {
      l.transport.AddDisconnect(l);
    }

    /** The destructor, for a listener that leaves the list. */
    method Erase(l: Listener)
      requires Valid() && l in members
      modifies this`list, this`members, l.transport
      ensures Valid() && members == old(members) - {l} && list == Keep(old(list), {l})
      ensures l.transport != null ==> l.transport.disconnects == Keep(old(l.transport.disconnects), {l})
    {
      RegistersOnce(l);
      Unlist(l);
      Deregister(l);
      ExactInAll(l);
    }

    ghost function Named(name: string): set<Listener>
      reads this, members
    {
      set l | l in members && l.localName == name
    }

    lemma NoneNamed(name: string)
      requires Named(name) == {}
      ensures forall l | l in members :: l.localName != name
    {
      assert forall l | l in members :: l !in Named(name);
    }

    /** Everything that forwards, which is everything but the smart sockets. */
    ghost function Forwards(): set<Listener>
      reads this, members
    {
      set l | l in members && !l.IsSmartSocket()
    }

    /** The loops that look for a name. */
    method Find(name: string) returns (found: Option<Listener>)
      requires Listed()
      ensures found.Some? ==> found.value in members && found.value.localName == name && Named(name) == {found.value}
      ensures found == None ==> Named(name) == {}
    {
      for i := 0 to |list|
        invariant forall l | l in Members(list[..i]) :: l.localName != name
      {
        At(list, i);
        TakeNext(list, i);
        if list[i].localName == name {
          return Some(list[i]);
        }
      }
      assert list[..|list|] == list;
      return None;
    }

    method RemoveListener(name: string) returns (status: InstallStatus)
      requires Valid()
      modifies this`list, this`members, transports
      ensures Valid() && list == Keep(old(list), old(Named(name)))
      ensures status == if old(Named(name)) == {} then NotFound else Ok
      ensures forall l | l in old(list) :: l in list <==> l.localName != name
      ensures status == Ok <==> exists l :: l in old(list) && l.localName == name
    {
      MembersAre(list);
      var found := Find(name);
      if found == None {
        KeepAll(list, {});
        return NotFound;
      }
      RegistersOnce(found.value);
      Erase(found.value);
      MembersAre(list);
      return Ok;
    }

    /** Whether iteration passes the listener. */
    predicate Passes(l: Listener)
      reads l
    {
      Starred(l.connectTo)
    }

    /** One erasure of remove_all_listeners. */
    method EraseNth(i: nat, ghost all: seq<Listener>, ghost gone: set<Listener>)
      requires Valid() && i < |list| && list == Keep(all, gone)
      modifies this`list, this`members, transports
      ensures Valid() && list == Keep(all, gone + {old(list)[i]})
      ensures |list| == |old(list)| - 1 && list[..i] == old(list)[..i]
    {
      At(list, i);
      EraseAt(list, i);
      KeepMore(all, gone, {list[i]});
      RegistersOnce(list[i]);
      Erase(list[i]);
    }

    /** What the loop of remove_all_listeners keeps: it has passed i listeners and erased `gone`. */
    ghost predicate Erasing(all: seq<Listener>, passing: set<Listener>, gone: set<Listener>, i: nat)
      reads this, members
    {
      && i <= |list| && list == Keep(all, gone) && gone <= Members(all) && gone !! passing
      && Members(list[..i]) <= passing
      && forall l | l in members :: l in passing <==> Passes(l)
    }

    method EraseOrPass(i: nat, ghost all: seq<Listener>, ghost passing: set<Listener>, ghost gone: set<Listener>)
      returns (i': nat, ghost gone': set<Listener>)
      requires Valid() && Erasing(all, passing, gone, i) && i < |list|
      modifies this`list, this`members, transports
      ensures Valid() && Erasing(all, passing, gone', i') && |list| - i' < old(|list|) - i
    {
      At(list, i);
      if Passes(list[i]) {
        TakeNext(list, i);
        i', gone' := i + 1, gone;
      } else {
        i', gone' := i, gone + {list[i]};
        EraseNth(i, all, gone);
      }
    }

    ghost function Passing(): set<Listener>
      reads this, members
    {
      set l | l in members && Passes(l)
    }

    /** The loop of remove_all_listeners, which erases while it iterates. */
    method EraseUnlessPassed() returns (ghost gone: set<Listener>)
      requires Valid()
      modifies this`list, this`members, transports
      ensures Valid() && list == Keep(old(list), gone)
      ensures gone == old(members - Passing())
    {
      var i: nat := 0;
      ghost var all, passing := list, Passing();
      gone := {};
      KeepAll(list, {});
      while i < |list|
        invariant Valid() == true && Erasing(all, passing, gone, i) == true
        decreases |list| - i
      {
        i, gone := EraseOrPass(i, all, passing, gone);
      }
      assert list[..|list|] == list;
    }

    /** remove_all_listeners keeps exactly the smart sockets. */
    method RemoveAllListeners()
      requires Valid()
      modifies this`list, this`members, transports
      ensures Valid() && list == Keep(old(list), old(Forwards())) && Forwards() == {}
      ensures forall l | l in old(list) :: l in list <==> old(l.connectTo) == "*smartsocket*"
    {
      MembersAre(list);
      forall l | l in members ensures Passes(l) <==> l.IsSmartSocket() {
        StarredIsSmart(l.connectTo, l.transport);
      }
      ghost var forwards := Forwards();
      ghost var gone := EraseUnlessPassed();
      assert gone == forwards;
      MembersAre(list);
    }

    /** listener_disconnect. The destructor no longer finds a transport. */
    method ListenerDisconnect(l: Listener)
      requires Listed() && l in members
      modifies this`list, this`members, l`transport
      ensures Listed() && members == old(members) - {l}
      ensures list == Keep(old(list), {l}) && l.transport == null
    {
      assert list[..|list|] == list;
      for i := 0 to |list|
        invariant list == old(list) && members == old(members) && l.transport == old(l.transport)
        invariant l !in Members(list[..i])
      {
        if list[i] == l {
          l.transport := null;
          EraseAt(list, i);
          list, members := list[..i] + list[i + 1..], members - {l};
          return;
        }
        TakeNext(list, i);
      }
      assert false;
    }

    /** The loop of RunDisconnects: the entries before the current one refer to dead listeners. */
    method DisconnectAll(ds: seq<Listener>)
      requires Listed() && Distinct(ds) && Members(ds) <= members
      modifies this`list, this`members, Members(ds)`transport
      ensures Listed() && members == old(members) - Members(ds)
      ensures list == Keep(old(list), Members(ds))
    {
      KeepAll(list, {});
      for i := 0 to |ds|
        invariant Listed() == true && members == old(members) - Members(ds[..i])
        invariant list == Keep(old(list), Members(ds[..i]))
      {
        At(ds, i);
        TakeNext(ds, i);
        KeepMore(old(list), Members(ds[..i]), {ds[i]});
        ListenerDisconnect(ds[i]);
      }
      assert ds[..|ds|] == ds;
    }

    /** Registration of the listeners in `left` is exact, and none of them belongs to `t`. */
    ghost predicate ExactWithout(t: Transport, left: set<Listener>)
      reads left, transports, this`transports
    {
      && (forall l | l in left ::
            l.transport != t && (l.transport != null ==> l.transport in transports && l in l.transport.registered))
      && (forall u | u in transports && u != t :: u.Valid())
      && (forall u, l | u in transports && u != t && l in u.registered :: l in left && l.transport == u)
    }

    /** The listeners that a transport knows of are its own, and the only ones it has. */
    lemma Knows(t: Transport)
      requires Valid() && t in transports
      ensures Distinct(t.disconnects) && Members(t.disconnects) == t.registered <= members
      ensures ExactWithout(t, members - t.registered)
    {
    }

    /** Empties the entries of a transport that no listener has. */
    method ForgetAll(t: Transport)
      requires Listed() && t in transports && ExactWithout(t, members)
      modifies t
      ensures Valid() && t.disconnects == [] && ExactWithout(t, members)
    {
      t.Clear();
    }

    /** RunDisconnects: afterwards there are no entries, and no listener of the transport is left. */
    method RunDisconnects(t: Transport)
      requires Valid() && t in transports
      modifies this`list, this`members, t, t.registered
      ensures Valid() && t.disconnects == []
      ensures list == Keep(old(list), Members(old(t.disconnects)))
      ensures forall l | l in old(list) :: l in list <==> old(l.transport) != t
    {
      MembersAre(list);
      Knows(t);
      DisconnectAll(t.disconnects);
      ForgetAll(t);
      MembersAre(list);
    }

    method SetTransport(l: Listener, transport: Transport)
      requires Listed() && Exact(l) && Registers(l, null) && Installable(l.connectTo, transport)
      modifies l`transport
      ensures Listed() && Exact(l) && Registers(l, null) && l.transport == transport
    {
      l.transport := transport;
    }

    method Move(l: Listener, transport: Transport)
      requires Listed() && Exact(l) && Registers(l, l.transport) && Installable(l.connectTo, transport)
      requires transport in transports && l.transport != transport
      modifies l`transport, l.transport, transport
      ensures Listed() && Exact(l) && Registers(l, transport) && l.transport == transport
    {
      Deregister(l);
      SetTransport(l, transport);
      Register(l);
    }

    method SetConnectTo(l: Listener, connectTo: string)
      requires Listed() && Exact(l) && Registers(l, l.transport) && Installable(connectTo, l.transport)
      modifies l`connectTo
      ensures Listed() && Exact(l) && Registers(l, l.transport) && l.connectTo == connectTo
    {
      l.connectTo := connectTo;
    }

    /** The end of install_listener's loop, for a transport that is not null. */
    method Rebind(l: Listener, connectTo: string, transport: Transport)
      requires Valid() && l in members && !l.IsSmartSocket() && Installable(connectTo, transport)
      requires transport in transports
      modifies l`connectTo, l`transport, l.transport, transport
      ensures Valid() && l.connectTo == connectTo && l.transport == transport
    {
      RegistersOnce(l);
      SetConnectTo(l, connectTo);
      if l.transport != transport {
        Move(l, transport);
      }
      ExactInAll(l);
    }

    method NewListener(name: string, connectTo: string, transport: Transport?) returns (l: Listener)
      requires Valid()
      ensures fresh(l) && l.localName == name && l.connectTo == connectTo && l.transport == transport
      ensures Listed() && Exact(l) && Registers(l, null) && l !in members
    {
      l := new Listener(name, connectTo);
      l.transport := transport;
      IsUnknown(l);
    }

    /** Puts a registered listener on the list. */
    method Enlist(l: Listener)
      requires Listed() && Exact(l) && l !in members && Registers(l, l.transport)
      requires Installable(l.connectTo, l.transport) && forall k | k in members :: k.localName != l.localName
      modifies this`list, this`members
      ensures Listed() && Exact(l) && list == old(list) + [l] && members == old(members) + {l}
    {
      Snoc(list, l);
      AgreeWith(members, transports, l);
      NewName(members, l);
      list, members := list + [l], members + {l};
    }

    /** The rest of install_listener, for a name that is not in use. */
    method Create(name: string, connectTo: string, transport: Transport?) returns (l: Listener)
      requires Valid() && Installable(connectTo, transport) && Named(name) == {}
      requires transport != null ==> transport in transports
      modifies this`list, this`members, transport
      ensures Valid() && list == old(list) + [l] && fresh(l) && members == old(members) + {l}
      ensures l.localName == name && l.connectTo == connectTo && l.transport == transport
    {
      NoneNamed(name);
      l := NewListener(name, connectTo, transport);
      if transport != null {
        Register(l);
      }
      Enlist(l);
      ExactInAll(l);
    }

    /** install_listener. The operating system never chooses a port that a listener holds. */
    method InstallListener(name: string, connectTo: string, transport: Transport?, noRebind: bool, listened: Listened)
      returns (status: InstallStatus)
      requires Valid() && (transport != null ==> transport in transports)
      requires if transport == null then connectTo == "*smartsocket*" else connectTo != "" && connectTo[0] != '*'
      requires listened.Resolved? ==> Named(listened.name) == {}
      modifies this`list, this`members, members, transports
      ensures Valid()
      ensures old(Named(name)) != {} ==>
                && list == old(list)
                && status == (if exists l | l in old(Named(name)) :: old(l.connectTo) == "*smartsocket*"
                              then InternalError
                              else if noRebind then CannotRebind else if transport == null then NullTransport else Ok)
                && (status == Ok ==>
                      forall l | l in old(Named(name)) :: l.connectTo == connectTo && l.transport == transport)
      ensures old(Named(name)) == {} ==> status == if listened == ListenFailed then CannotBind else Ok
      ensures old(Named(name)) == {} && status != Ok ==> list == old(list)
      ensures old(Named(name)) == {} && status == Ok ==>
                && |list| == |old(list)| + 1 && list[..|old(list)|] == old(list)
                && var l := list[|old(list)|];
                   && fresh(l) && l.localName == (if listened.Resolved? then listened.name else name)
                   && l.connectTo == connectTo && l.transport == transport
      ensures forall l | l in old(members) && !(status == Ok && l in old(Named(name))) ::
                l.connectTo == old(l.connectTo) && l.transport == old(l.transport)
    {
      var found := Find(name);
      if found.Some? {
        var l := found.value;
        if l.IsSmartSocket() {
          return InternalError;
        }
        if noRebind {
          return CannotRebind;
        }
        if transport == null {
          return NullTransport;
        }
        RegistersOnce(l);
        Rebind(l, connectTo, transport);
        return Ok;
      }
      if listened == ListenFailed {
        return CannotBind;
      }
      var _ := Create(if listened.Resolved? then listened.name else name, connectTo, transport);
      return Ok;
    }
  }

  /** From the empty list: a forward, then the smart socket under its name. */
  method InstallDereferencesNull() returns (status: InstallStatus)
    ensures status == NullTransport
  {
    var listeners := new ListenerList();
    var transport := new Transport();
    listeners.Connect(transport);
    var _ := listeners.InstallListener("tcp:1", "tcp:2", transport, false, Bound);
    var l := listeners.list[0];
    assert l in listeners.members by {
      At(listeners.list, 0);
    }
    assert l in listeners.Named("tcp:1");
    assert !l.IsSmartSocket();
    status := listeners.InstallListener("tcp:1", SMART_SOCKET, null, false, Bound);
  }
}
