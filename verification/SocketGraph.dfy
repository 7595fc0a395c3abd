/** The sockets of one adb process as they link to each other: the socket list, the closing list and the peer
    pointers of adb/sockets.cpp, updated in place by closing, flushing, reading and losing a transport. */
module SocketGraph {
  import opened Bytes
  import opened LocalPair
  import opened LocalSocket

  datatype Kind = LocalKind | RemoteKind

  /** A packet handed to send_packet for a transport. */
  datatype Sent =
    | SentOpen(transport: nat, local: nat, bytes: nat)
    | SentReady(transport: nat, local: nat, remote: nat, bytes: nat)
    | SentWrite(transport: nat, local: nat, remote: nat, data: seq<byte>)
    | SentClose(transport: nat, local: nat, remote: nat)

  class Asocket {
    const kind: Kind
    const id: nat
    var transport: nat  // 0 for none
    var peer: Asocket?
    var s: Local

    constructor (kind: Kind, id: nat, transport: nat)
      ensures this.kind == kind && this.id == id && this.transport == transport
      ensures this.peer == null && this.s == FRESH
    {
      this.kind, this.id, this.transport := kind, id, transport;
      this.peer, this.s := null, FRESH;
    }

    /** The socket's fields, and its peer's transport. */
    ghost function Image(): (Local, int, Asocket?, int)
      reads this, peer
    {
      (s, transport, peer, if peer == null then 0 else peer.transport)
    }

    /** On the socket list. */
    ghost predicate IsOpen()
      reads this
    {
      !s.closing && s.wr == FdFull(s)
    }

    /** On the closing list: the queue is still being written. */
    ghost predicate IsParked()
      reads this
    {
      s.closing && s.wr && FdFull(s) && !s.rd && peer == null
    }
  }

  ghost predicate NoDuplicates(list: seq<Asocket>) {
    forall i, j | 0 <= i < j < |list| :: list[i] != list[j]
  }

  /** `list` without `s`, as std::remove_if leaves it. */
  function Without(list: seq<Asocket>, s: Asocket): (r: seq<Asocket>)
    ensures (forall x | x in r :: x in list && x != s) && (forall x | x in list :: x == s || x in r)
    ensures |r| <= |list| && (s in list ==> |r| < |list|)
    ensures NoDuplicates(list) ==> NoDuplicates(r)
  {
    if list == [] then []
    else
      assert NoDuplicates(list) ==> NoDuplicates(list[1..]) && list[0] !in list[1..];
      (if list[0] == s then [] else [list[0]]) + Without(list[1..], s)
  }

  class Sockets {
    var live: seq<Asocket>     // local_socket_list
    var closing: seq<Asocket>  // local_socket_closing_list
    var sent: seq<Sent>
    ghost var all: set<Asocket>  // every socket that has not been freed

    /** Every socket but `except` is linked both ways or not at all. */
    ghost predicate Linked(except: Asocket?)
      reads this, all
    {
      forall x | x in all && x != except && x.peer != null ::
        x.peer in all && x.peer != x && x.peer != except && x.peer.peer == x
    }

    /** Every local socket but `except` is on one of the lists. */
    ghost predicate ListedBut(except: Asocket?)
      reads this, all
    {
      && NoDuplicates(live) && NoDuplicates(closing)
      && (forall x | x in live :: x in all && x !in closing && x.IsOpen())
      && (forall x | x in closing :: x in all && x.IsParked())
      && (forall x | x in all && x != except :: x.kind == LocalKind <==> x in live || x in closing)
    }

    ghost predicate Listed()
      reads this, all
    {
      ListedBut(null)
    }

    ghost predicate Valid()
      reads this, all
    {
      Listed() && Linked(null)
    }

    constructor ()
      ensures Valid() && live == [] && closing == [] && sent == [] && all == {}
    {
      live, closing, sent, all := [], [], [], {};
    }

    /** The sockets that closing `s` frees: of `s` and its peer, all but the local ones with bytes left to write. */
    static ghost function Freed(s: Asocket): set<Asocket>
      reads s, s.peer
    {
      var pair := if s.peer == null then {s} else {s, s.peer};
      set x | x in pair && (x.kind == RemoteKind || ClosesNow(x.s))
    }

    /** The CLSE that closing `s` sends: one if it is linked to a remote socket. */
    static ghost function CloseSent(s: Asocket): seq<Sent>
      reads s, s.peer
    {
      if s.kind == LocalKind && s.peer != null && s.peer.kind == RemoteKind
      then [SentClose(s.peer.transport, s.id, s.peer.id)]
      else []
    }

    /** A closing socket on the closing list. */
    static function Parked(s: Local): Local {
      s.(closing := true, rd := false)
    }

    /** Puts a socket that is on neither list on the closing list. */
    method Park(s: Asocket, ghost except: Asocket?)
      requires ListedBut(s) && Linked(except) && s in all && s != except && s.kind == LocalKind && s.peer == null
      requires s !in live && s !in closing && !ClosesNow(s.s) && s.IsOpen()
      modifies this`closing, s`s
      ensures Listed() && Linked(except)
      ensures s in closing && s.s == old(Parked(s.s))
    {
      s.s := Parked(s.s);
      closing := closing + [s];
      assert s.s.wr;  // the check at the end: FDE_WRITE is armed
    }

    /** The end of local_socket_close, once the socket has no peer. */
    method Retire(s: Asocket, ghost except: Asocket?)
      requires Listed() && Linked(except) && s in all && s != except && s.kind == LocalKind && s.peer == null
      modifies this`live, this`closing, this`all, s`s
      ensures Listed() && Linked(except)
      ensures all == if old(ClosesNow(s.s)) then old(all) - {s} else old(all)
      ensures live == Without(old(live), s)
      ensures s in all ==> s in closing && s.s == old(Parked(s.s))
    {
      live, closing := Without(live, s), Without(closing, s);
      if ClosesNow(s.s) {
        all := all - {s};
      } else {
        Park(s, except);
      }
    }

    method RemoteSocketClose(s: Asocket, ghost except: Asocket?)
      requires s.kind == RemoteKind
      requires Listed() && Linked(except) && s in all && s != except
      requires s.peer != null ==> except == null
      modifies this, s, s.peer
      ensures Listed() && Linked(except)
      ensures all == old(all) - old(Freed(s))
      ensures forall x | x in live :: x in old(live)
      ensures forall x | x in old(live) :: x in live <==> x != s && x != old(s.peer)
      ensures |live| <= |old(live)|
      ensures s.transport == old(s.transport)
      ensures forall p: Asocket | p == old(s.peer) ::
                && p.transport == old(p.transport)
                && (p in all ==> p in closing && p.s == old(Parked(p.s)) && p.peer == null)
      ensures sent == old(sent + CloseSent(s))
      decreases if s.peer == null then 0 else 1, 1
    {
      if s.peer != null {
        var p := s.peer;
        p.peer := null;
        Close(p, s);
      }
      all := all - {s};
    }

    /** s->close(s) for either kind of socket. `except` is a socket whose own link the caller is taking down. */
    method Close(s: Asocket, ghost except: Asocket?)
      requires Listed() && Linked(except) && s in all && s != except
      requires s.peer != null ==> except == null
      modifies this, s, s.peer
      ensures Listed() && Linked(except)
      ensures all == old(all) - old(Freed(s))
      ensures forall x | x in old(all) ::
                if x == s || x == old(s.peer)
                then x !in all <==> x.kind == RemoteKind || old(x.s.closing || x.s.writeError || x.s.queue == [])
                else x in all
      ensures forall x | x in live :: x in old(live)
      ensures forall x | x in old(live) :: x in live <==> x != s && x != old(s.peer)
      ensures s in old(live) ==> |live| < |old(live)|
      ensures |live| <= |old(live)|
      ensures s.transport == old(s.transport)
      ensures s in old(all) - old(Freed(s)) ==> s in closing && s.s == old(Parked(s.s)) && s.peer == null
      ensures forall p: Asocket | p == old(s.peer) ::
                && p.transport == old(p.transport)
                && (p in all ==> p in closing && p.s == old(Parked(p.s)) && p.peer == null)
      ensures sent == old(sent) + if s.kind == LocalKind && old(s.peer) != null && old(s.peer).kind == RemoteKind
                                  then [SentClose(old(s.peer.transport), s.id, old(s.peer).id)] else []
      decreases if s.peer == null then 0 else 1, 2
    {
      if s.kind == LocalKind {
        LocalSocketClose(s, except);
      } else {
        RemoteSocketClose(s, except);
      }
    }

    /** The part of local_socket_close that shuts the peer down, closes it and drops the link. */
    method ClosePeer(s: Asocket)
      requires s.kind == LocalKind && s.peer != null && Listed() && Linked(null) && s in all
      modifies this, s, s.peer
      ensures Listed() && Linked(null) && s in all && s.peer == null
      ensures s.s == old(s.s) && s.transport == old(s.transport) && (s in live <==> s in old(live))
      ensures all == old(all) - (old(Freed(s)) - {s})
      ensures forall x | x in live :: x in old(live)
      ensures forall x | x in old(live) :: x in live <==> x != old(s.peer)
      ensures |live| <= |old(live)|
      ensures var p := old(s.peer);
        && p.transport == old(s.peer.transport)
        && (p in all ==> p in closing && p.s == old(Parked(s.peer.s)) && p.peer == null)
      ensures sent == old(sent + CloseSent(s))
      decreases 1, 0
    {
      var p := s.peer;
      if p.kind == RemoteKind {
        sent := sent + [SentClose(p.transport, s.id, p.id)];
      }
      p.peer := null;
      Close(p, s);
      s.peer := null;
    }

    method LocalSocketClose(s: Asocket, ghost except: Asocket?)
      requires s.kind == LocalKind
      requires Listed() && Linked(except) && s in all && s != except
      requires s.peer != null ==> except == null
      modifies this, s, s.peer
      ensures Listed() && Linked(except)
      ensures all == old(all) - old(Freed(s))
      ensures forall x | x in live :: x in old(live)
      ensures forall x | x in old(live) :: x in live <==> x != s && x != old(s.peer)
      ensures s in old(live) ==> |live| < |old(live)|
      ensures |live| <= |old(live)|
      ensures s.transport == old(s.transport)
      ensures s in old(all) - old(Freed(s)) ==> s in closing && s.s == old(Parked(s.s)) && s.peer == null
      ensures forall p: Asocket | p == old(s.peer) ::
                && p.transport == old(p.transport)
                && (p in all ==> p in closing && p.s == old(Parked(p.s)) && p.peer == null)
      ensures sent == old(sent + CloseSent(s))
      decreases if s.peer == null then 0 else 1, 1
    {
      if s.peer != null {
        ClosePeer(s);
      }
      Retire(s, except);
    }

    /** Whether losing transport `t` ends socket `x`. */
    static predicate OnTransport(x: Asocket, t: nat)
      reads x, x.peer
    {
      x.transport == t || (x.peer != null && x.peer.transport == t)
    }

    /** What a socket with fields `was` becomes when it is closed: it is freed, or parked on the closing list. */
    ghost predicate Ended(x: Asocket, was: Local)
      reads this, x
    {
      if ClosesNow(was) then x !in all else x in all && x in closing && x.s == Parked(was)
    }

    /** Closing a socket of the list, as seen by the others. */
    method CloseOne(s: Asocket)
      requires Valid() && s in live
      modifies this, s, s.peer
      ensures Valid() && all <= old(all) && |live| < |old(live)| && s !in live
      ensures forall x | x in live :: x in old(live) && x.Image() == old(x.Image())
      ensures forall x | x in old(live) && x !in live :: (x == s || x == old(s.peer)) && Ended(x, old(x.s))
      ensures forall x | x in old(closing) :: x in closing && x.s == old(x.s)
    {
      Close(s, null);
    }

    /** Takes exactly the sockets on `t` or linked to `t` off the socket list. */
    method CloseAllSockets(t: nat)
      requires Valid()
      modifies this, all
      ensures Valid()
      ensures all <= old(all)
      ensures forall x | x in old(live) ::
                x in live <==> old(x.transport != t && (x.peer == null || x.peer.transport != t))
      ensures forall x | x in live :: x in old(live)
      ensures forall x | x in live :: x.s == old(x.s) && x.peer == old(x.peer) && x.transport == old(x.transport)
      ensures forall x | x in old(live) && x !in live ::
                if old(x.s.writeError || x.s.queue == []) then x !in all
                else x in all && x in closing && x.s == old(x.s).(closing := true, rd := false)
      ensures forall x | x in old(closing) :: x in closing && x.s == old(x.s)
    {
      var i := 0;
      while i < |live|
        invariant Valid() == true && all <= old(all) && 0 <= i <= |live|
        invariant forall x | x in live :: x in old(live) && x.Image() == old(x.Image())
        invariant forall x | x in old(live) && x !in live :: old(OnTransport(x, t)) && Ended(x, old(x.s)) == true
        invariant forall x | x in old(closing) :: x in closing && x.s == old(x.s)
        invariant forall j | 0 <= j < i :: !OnTransport(live[j], t)
        decreases |live|, |live| - i
      {
        var s := live[i];
        if OnTransport(s, t) {
          CloseOne(s);
          i := 0;
        } else {
          i := i + 1;
        }
      }
    }

    /** The packet for a call of send_ready. */
    static ghost function ReadySent(s: Asocket, okay: Option<nat>): seq<Sent>
      requires okay.Some? ==> s.peer != null
      reads s, s.peer
    {
      if okay.Some? then [SentReady(s.transport, s.id, s.peer.id, okay.value)] else []
    }

    static predicate Linking(s: Asocket)
      reads s
    {
      s.peer != null && s.transport != 0
    }

    /** The send_ready calls of local_socket_flush_incoming after `n` bytes were written and `left` remain. */
    method SendReady(s: Asocket, n: nat, left: nat)
      modifies this`sent
      ensures sent == old(sent) + ReadySent(s, Okay(s.s, Linking(s), n, left))
    {
      if s.transport != 0 && s.peer != null {
        if s.s.credit.Some? {
          sent := sent + [SentReady(s.transport, s.id, s.peer.id, AsUint32(n))];
        } else if n != 0 && left < MAX_PAYLOAD {
          sent := sent + [SentReady(s.transport, s.id, s.peer.id, 0)];
        }
      }
    }

    /** Stores a socket's fields, FDE_WRITE being armed exactly while its fd is full. */
    method Store(s: Asocket, v: Local)
      requires Valid() && s in live + closing
      requires v.closing == s.s.closing && v.wr == FdFull(v) && (v.closing ==> FdFull(v) && !v.rd)
      modifies s`s
      ensures Valid() && s.s == v
    {
      s.s := v;
    }

    /** The write of the queue, once `data` is on it. */
    method WriteQueue(s: Asocket, data: seq<byte>, rc: WriteRc) returns (v: Local, n: nat)
      requires ValidRc(s.s.queue + data, rc)
      ensures (v, n) == Written(Queued(s.s, data), rc)
    {
      var q := s.s.queue + data;
      n := if q != [] && rc.Accepted? then rc.n else 0;
      v := s.s.(queue := q[n..], writeError := s.s.writeError || (q != [] && rc.Failed?));
    }

    /** local_socket_close of a socket on the closing list. */
    method Discard(s: Asocket)
      requires Valid() && s in closing
      modifies this`closing, this`all
      ensures Valid() && closing == Without(old(closing), s) && all == old(all) - {s}
    {
      closing := Without(closing, s);
      all := all - {s};
    }

    /** The rest of local_socket_flush_incoming: a closing socket ends, for others FDE_WRITE is armed or disarmed. */
    method DiscardOrStore(s: Asocket, v: Local) returns (alive: bool)
      requires Valid() && s in live + closing && v.closing == s.s.closing && v.rd == s.s.rd
      modifies this`closing, this`all, s`s
      ensures Valid() && alive == !(v.closing && !FdFull(v))
      ensures all == (if alive then old(all) else old(all) - {s})
      ensures alive ==> s.s == v.(wr := FdFull(v)) && closing == old(closing)
    {
      alive := !(v.closing && !FdFull(v));
      if alive {
        Store(s, v.(wr := FdFull(v)));
      } else {
        Discard(s);
      }
    }

    /** local_socket_flush_incoming, once `data` is on the queue: does to the socket what Flush says. */
    method FlushIncoming(s: Asocket, data: seq<byte>, rc: WriteRc) returns (full: bool, alive: bool)
      requires Valid() && s in live + closing && ValidRc(s.s.queue + data, rc)
      modifies this`closing, this`all, this`sent, s`s
      ensures Valid()
      ensures var f := Flush(Queued(old(s.s), data), Linking(s), rc);
        && alive == !f.destroyed && full == FdFull(f.s)
        && all == (if alive then old(all) else old(all) - {s})
        && (alive ==> s.s == f.s && closing == old(closing))
        && sent == old(sent) + ReadySent(s, f.okay)
    {
      var v, n := WriteQueue(s, data, rc);
      full := FdFull(v);
      SendReady(s, n, |v.queue|);
      alive := DiscardOrStore(s, v);
    }

    /** peer->enqueue: local_socket_enqueue or remote_socket_enqueue. */
    method Enqueue(p: Asocket, data: seq<byte>, rc: WriteRc) returns (r: int)
      requires Valid() && p in all && p.peer != null
      requires p.kind == LocalKind ==> ValidRc(p.s.queue + data, rc)
      modifies this`closing, this`all, this`sent, p`s
      ensures Valid() && all == old(all) && closing == old(closing)
      ensures p.kind == RemoteKind ==>
                && p.s == old(p.s)
                && r == (if |data| > MAX_PAYLOAD then -1 else 1)
                && sent == old(sent) + if r == 1 then [SentWrite(p.transport, p.peer.id, p.id, data)] else []
      ensures p.kind == LocalKind ==>
                var f := Flush(Queued(old(p.s), data), Linking(p), rc);
                && p.s == f.s && r == (if FdFull(f.s) then 1 else 0) && sent == old(sent) + ReadySent(p, f.okay)
    {
      if p.kind == RemoteKind {
        if |data| > MAX_PAYLOAD {
          return -1;
        }
        sent := sent + [SentWrite(p.transport, p.peer.id, p.id, data)];
        return 1;
      }
      assert p in live && !p.s.closing;
      var full, alive := FlushIncoming(p, data, rc);
      r := if !alive then -1 else if full then 1 else 0;
    }

    /** The end of passing data on: FDE_READ is disarmed if the peer is full and no credit is left. */
    method StopReading(s: Asocket, r: int)
      requires Valid() && s in live
      modifies s`s
      ensures Valid()
      ensures s.s == old(s.s).(rd := if r > 0 then old(s.s).rd && s.s.credit.Some? && s.s.credit.value > 0
                                     else old(s.s).rd)
    {
      if r > 0 && (s.s.credit.None? || s.s.credit.value <= 0) {
        Store(s, s.s.(rd := false));
      }
    }

    /** What local_socket_flush_outgoing does before it looks at the end of file: passes `data` on, if there is any. */
    method PassOn(s: Asocket, data: seq<byte>, rc: WriteRc) returns (r: int)
      requires Valid() && s in live && data != [] && s.peer != null
      requires s.peer.kind == LocalKind ==> ValidRc(s.peer.s.queue + data, rc)
      modifies this`closing, this`all, this`sent, s`s, s.peer`s
      ensures Valid() && all == old(all) && closing == old(closing)
      ensures s.s == Spent(old(s.s), |data|, r)
      ensures s.peer.kind == RemoteKind ==>
                && r == (if |data| > MAX_PAYLOAD then -1 else 1)
                && sent == old(sent) + if r > 0 then [SentWrite(s.peer.transport, s.id, s.peer.id, data)] else []
      ensures s.peer.kind == LocalKind ==>
                && s.peer.s == Given(old(s.peer.s), data, s.peer.transport != 0, rc)
                && r == (if FdFull(s.peer.s) then 1 else 0)
                && (s.peer.transport == 0 ==> sent == old(sent))
    {
      if s.s.credit.Some? {
        Store(s, s.s.(credit := Some(s.s.credit.value - |data|)));
      }
      r := Enqueue(s.peer, data, rc);
      StopReading(s, r);
    }

    /** The loop of local_socket_flush_outgoing, with what the calls of adb_read return. */
    static method ReadFd(got: seq<ReadRc>, room: nat) returns (data: seq<byte>, eof: bool)
      requires LegalReads(got, room)
      ensures (data, eof) == Drain(got, room)
    {
      data, eof := [], false;
      var avail: nat, i := room, 0;
      assert got[0..] == got && [] + Drain(got, room).0 == Drain(got, room).0;
      while avail > 0
        invariant 0 <= i <= |got| && LegalReads(got[i..], avail)
        invariant Drain(got, room) == (data + Drain(got[i..], avail).0, Drain(got[i..], avail).1)
        invariant data + [] == data
        decreases avail
      {
        ghost var (more, _) := Drain(got[i + 1..], if got[i].Got? then avail - |got[i].data| else 0);
        match got[i] {
          case Again =>
            return;
          case Got(x) =>
            assert got[i..][1..] == got[i + 1..];
            ConcatAssociates(data, x, more);
            data, avail := data + x, avail - |x|;
          case Ended =>
            return data, true;
        }
        i := i + 1;
      }
    }

    /** The socket once `data` was passed on. */
    static ghost function Reading(s: Asocket, data: seq<byte>, rc: WriteRc): Local
      requires s.peer != null && s.peer.kind == LocalKind && data != [] ==> ValidRc(s.peer.s.queue + data, rc)
      reads s, s.peer
    {
      if data == [] || s.peer == null then s.s
      else
        Spent(s.s, |data|,
              if s.peer.kind == RemoteKind || FdFull(Given(s.peer.s, data, s.peer.transport != 0, rc)) then 1 else 0)
    }

    static ghost function ReadSent(s: Asocket, data: seq<byte>): seq<Sent>
      reads s, s.peer
    {
      if data == [] || s.peer == null then [] else [SentWrite(s.peer.transport, s.id, s.peer.id, data)]
    }

    /** Passes on what was read, if there is anything and a peer. */
    method PassAll(s: Asocket, data: seq<byte>, rc: WriteRc) returns (refused: bool)
      requires Valid() && s in live
      requires s.peer != null && s.peer.kind == LocalKind && data != [] ==> ValidRc(s.peer.s.queue + data, rc)
      modifies this`closing, this`all, this`sent, s`s, (if s.peer == null then {} else {s.peer})`s
      ensures Valid() && all == old(all) && closing == old(closing)
      ensures refused <==> s.peer != null && s.peer.kind == RemoteKind && |data| > MAX_PAYLOAD
      ensures !refused ==> s.s == old(Reading(s, data, rc))
      ensures s.peer == null ==> sent == old(sent)
      ensures s.peer != null && s.peer.kind == RemoteKind && !refused ==> sent == old(sent) + ReadSent(s, data)
      ensures s.peer != null && s.peer.kind == LocalKind ==>
                && s.peer.s == Given(old(s.peer.s), data, s.peer.transport != 0, rc)
                && (s.peer.transport == 0 ==> sent == old(sent))
    {
      refused := false;
      if data != [] && s.peer != null {
        var r := PassOn(s, data, rc);
        refused := r < 0;
      }
    }

    static ghost function ReadRemote(s: Asocket, data: seq<byte>): Local
      reads s
    {
      if data == [] || s.peer == null then s.s else Spent(s.s, |data|, 1)
    }

    /** local_socket_flush_outgoing. False if the socket is closed. What was read goes out before the close at the end
        of file. */
    method FlushOutgoing(s: Asocket, got: seq<ReadRc>, maxPayload: nat, rc: WriteRc)
      returns (open: bool, ghost data: seq<byte>, ghost eof: bool)
      requires Valid() && s in live && s.s.rd && LegalReads(got, maxPayload)
      requires s.peer != null && s.peer.kind == LocalKind ==>
                 ValidRc(s.peer.s.queue + Drain(got, maxPayload).0, rc)
      modifies this, s, s.peer
      ensures (data, eof) == Drain(got, maxPayload)
      ensures Valid() && all <= old(all)
      ensures open <==> !eof && !(old(s.peer) != null && old(s.peer).kind == RemoteKind && |data| > MAX_PAYLOAD)
      ensures open ==> live == old(live) && s.peer == old(s.peer) && s.transport == old(s.transport)
      ensures open && s.peer != null ==> s.peer.peer == s
      ensures old(s.peer) != null ==> old(s.peer).transport == old(s.peer.transport)
      ensures open ==> s.s == old(Reading(s, data, rc))
      ensures old(s.peer) != null && old(s.peer).kind == RemoteKind && |data| <= MAX_PAYLOAD ==>
                sent == old(sent)
                        + (if data != [] then [SentWrite(old(s.peer).transport, s.id, old(s.peer).id, data)] else [])
                        + (if eof then [SentClose(old(s.peer).transport, s.id, old(s.peer).id)] else [])
      ensures old(s.peer == null || (s.peer.kind == LocalKind && s.peer.transport == 0)) ==> sent == old(sent)
      ensures eof && !(old(s.peer) != null && old(s.peer).kind == RemoteKind && |data| > MAX_PAYLOAD) ==>
                s !in live && Ended(s, old(Reading(s, data, rc)))
      ensures forall x | x in live :: x in old(live)
      ensures forall p: Asocket | p == old(s.peer) && p.kind == LocalKind ::
                var given := Given(old(s.peer.s), data, old(s.peer).transport != 0, rc);
                if open then p.s == given
                else (p in all <==> !ClosesNow(given)) && (p in all ==> p.s == Parked(given))
    {
      var read, ended := ReadFd(got, maxPayload);
      data, eof := read, ended;
      var refused := PassAll(s, read, rc);
      if refused {
        return false, data, eof;
      }
      if ended {
        Close(s, null);
        return false, data, eof;
      }
      open := true;
    }

    /** The same for a socket whose peer is remote, if it has one, and that reads no more than a packet holds. */
    method FlushToRemote(s: Asocket, got: seq<ReadRc>, maxPayload: nat) returns (open: bool, ghost data: seq<byte>)
      requires Valid() && s in live && s.s.rd && LegalReads(got, maxPayload) && maxPayload <= MAX_PAYLOAD
      requires s.peer != null ==> s.peer.kind == RemoteKind
      modifies this, s, s.peer
      ensures (data, !open) == Drain(got, maxPayload)
      ensures Valid() && all <= old(all) && (forall x | x in live :: x in old(live))
      ensures open ==>
                && s in live && s.s == old(ReadRemote(s, data))
                && s.peer == old(s.peer) && s.transport == old(s.transport)
                && (s.peer != null ==> s.peer.transport == old(s.peer.transport))
      ensures !open ==> s !in live && Ended(s, old(ReadRemote(s, data)))
      ensures sent == old(sent + ReadSent(s, data)) + if open then [] else old(CloseSent(s))
    {
      var o, d, eof := FlushOutgoing(s, got, maxPayload, WouldBlock);
      open, data := o, d;
    }

    static predicate Matches(x: Asocket, local: nat, remote: nat)
      reads x, x.peer
    {
      x.id == local && (remote == 0 || (x.peer != null && x.peer.id == remote))
    }

    /** find_local_socket, for an id that at most one socket of the list has. */
    method FindLocal(local: nat, remote: nat) returns (found: Asocket?)
      requires Valid() && forall x, y | x in live && y in live && x.id == local == y.id :: x == y
      ensures found != null ==> found in live && Matches(found, local, remote)
      ensures found == null ==> forall x | x in live :: !Matches(x, local, remote)
    {
      for i := 0 to |live|
        invariant forall j | 0 <= j < i :: live[j].id != local
      {
        if live[i].id == local {
          return if remote == 0 || (live[i].peer != null && live[i].peer.id == remote) then live[i] else null;
        }
      }
      return null;
    }

    /** local_socket_ack. */
    method Ack(s: Asocket, acked: Option<nat>)
      requires Valid() && s in live
      modifies s`s
      ensures Valid()
      ensures s.s == Acked(old(s.s), acked)
    {
      if s.s.credit.Some? != acked.Some? {
        return;
      }
      if acked.Some? {
        Store(s, s.s.(credit := Some(s.s.credit.value + AsInt32(acked.value))));
        if s.s.credit.value > 0 {
          Store(s, s.s.(rd := true));
        }
      } else {
        Store(s, s.s.(rd := true));
      }
    }

    /** create_local_socket. */
    method CreateLocal(id: nat, transport: nat) returns (s: Asocket)
      requires Valid()
      modifies this`live, this`all
      ensures Valid() && fresh(s) && s.kind == LocalKind && s.id == id && s.transport == transport
      ensures s.peer == null && s.s == FRESH && live == old(live) + [s] && all == old(all) + {s}
    {
      s := new Asocket(LocalKind, id, transport);
      live := live + [s];
      all := all + {s};
    }

    /** create_remote_socket for a socket without a peer, as A_OPEN and the first A_OKAY do it. */
    method ConnectRemote(s: Asocket, remote: nat, t: nat)
      requires Valid() && s in live && s.peer == null
      modifies this`all, s`peer
      ensures Valid() && s.peer != null && fresh(s.peer) && all == old(all) + {s.peer}
      ensures s.peer.kind == RemoteKind && s.peer.id == remote && s.peer.transport == t && s.peer.peer == s
    {
      var p := new Asocket(RemoteKind, remote, t);
      p.peer := s;
      s.peer := p;
      all := all + {p};
    }

    /** Links two local sockets, as a smart socket does for a host service. */
    method ConnectLocals(a: Asocket, b: Asocket)
      requires Valid() && a in live && b in live && a != b && a.peer == null && b.peer == null
      modifies a`peer, b`peer
      ensures Valid() && a.peer == b && b.peer == a
    {
      a.peer, b.peer := b, a;
    }

    /** Two local sockets without a transport that are each other's peers. */
    ghost predicate IsPair(a: Asocket, b: Asocket)
      reads this, a, b
    {
      a in live && b in live && a != b && a.peer == b && b.peer == a && a.transport == 0 == b.transport
    }

    /** The fd events of such a pair do what LocalPair says, and send nothing. */
    method PairEvent(a: Asocket, b: Asocket, e: PairEvent)
      requires Valid() && IsPair(a, b) && Enabled(Pair(a.s, b.s), e)
      modifies this, a, b
      ensures Valid() && IsPair(a, b) && Pair(a.s, b.s) == Step(old(Pair(a.s, b.s)), e) && sent == old(sent)
    {
      match e {
        case Read(first, got, room, rc) =>
          var open, _, _ := FlushOutgoing(if first then a else b, got, room, rc);
        case Write(first, rc) =>
          var s := if first then a else b;
          assert s.s.queue + [] == s.s.queue;
          var full, alive := FlushIncoming(s, [], rc);
      }
    }

    method PairEvents(a: Asocket, b: Asocket, events: seq<PairEvent>)
      requires Valid() && IsPair(a, b) && IsRun(Pair(a.s, b.s), events)
      modifies this, a, b
      ensures Valid() && IsPair(a, b) && Pair(a.s, b.s) == After(old(Pair(a.s, b.s)), events) && sent == old(sent)
    {
      for i := 0 to |events|
        invariant Valid() == true && IsPair(a, b) && IsRun(Pair(a.s, b.s), events[i..]) && sent == old(sent)
        invariant After(Pair(a.s, b.s), events[i..]) == After(old(Pair(a.s, b.s)), events)
      {
        assert events[i..][1..] == events[i + 1..];
        PairEvent(a, b, events[i]);
      }
    }
  }
}
