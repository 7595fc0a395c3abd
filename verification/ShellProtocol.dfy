/** The framing of adb/shell_service_protocol.cpp: packets too big for the buffer are read in pieces. */
module ShellProtocol {
  import opened Arithmetic
  import opened Bytes
  import LittleEndian

  const HEADER_SIZE: nat := 5

  datatype Packet = Packet(id: byte, payload: seq<byte>)

  function Serialize(p: Packet): seq<byte> {
    [p.id] + LittleEndian.Encode(|p.payload|, 4) + p.payload
  }

  /** The id, the length in four bytes, the payload. */
  lemma SerializesAs(p: Packet)
    ensures var bytes := Serialize(p);
      && |bytes| == 5 + |p.payload| && bytes[0] == p.id && bytes[5..] == p.payload
      && LittleEndian.Decode(bytes[1..5]) == |p.payload| % 0x1_0000_0000
  {
    var bytes, field := Serialize(p), LittleEndian.Encode(|p.payload|, 4);
    assert bytes == [p.id] + (field + p.payload);
    assert bytes[1..5] == field;
    LittleEndian.RoundTrips(|p.payload|);
  }

  function SerializeAll(ps: seq<Packet>): seq<byte> {
    if ps == [] then [] else Serialize(ps[0]) + SerializeAll(ps[1..])
  }

  /** What is read of a payload: pieces of the capacity, and the rest; one empty piece of an empty payload. */
  function Pieces(payload: seq<byte>, capacity: nat): seq<seq<byte>>
    requires capacity > 0
    decreases |payload|
  {
    if |payload| <= capacity then [payload] else [payload[..capacity]] + Pieces(payload[capacity..], capacity)
  }

  lemma OneMore(n: nat, capacity: nat)
    requires capacity > 0
    ensures (n + capacity) / capacity == n / capacity + 1
  {
    DivModIs(n + capacity, capacity, n / capacity + 1, n % capacity);
  }

  /** The pieces are the payload, each but the last fills the capacity, and there are max(1, ceil(length / capacity)) of
      them. */
  lemma {:induction false} PiecesArePayload(payload: seq<byte>, capacity: nat)
    requires capacity > 0
    ensures Flatten(Pieces(payload, capacity)) == payload
    ensures forall i | 0 <= i < |Pieces(payload, capacity)| ::
              if i < |Pieces(payload, capacity)| - 1 then |Pieces(payload, capacity)[i]| == capacity
              else |Pieces(payload, capacity)[i]| <= capacity
    ensures |Pieces(payload, capacity)| == if payload == [] then 1 else (|payload| + capacity - 1) / capacity
    decreases |payload|
  {
    if |payload| <= capacity {
      FlattenOne(payload);
      if payload != [] {
        DivModIs(|payload| + capacity - 1, capacity, 1, |payload| - 1);
      }
    } else {
      var rest := Pieces(payload[capacity..], capacity);
      PiecesArePayload(payload[capacity..], capacity);
      FlattenAppend([payload[..capacity]], rest);
      FlattenOne(payload[..capacity]);
      assert payload == payload[..capacity] + payload[capacity..];
      OneMore(|payload| - 1, capacity);
    }
  }

  function Tagged(id: byte, pieces: seq<seq<byte>>): seq<Packet> {
    seq(|pieces|, i requires 0 <= i < |pieces| => Packet(id, pieces[i]))
  }

  /** What successful reads return of the packets, read by read. */
  function Expected(ps: seq<Packet>, capacity: nat): seq<Packet>
    requires capacity > 0
  {
    if ps == [] then [] else Tagged(ps[0].id, Pieces(ps[0].payload, capacity)) + Expected(ps[1..], capacity)
  }

  /** The reads of several packets are the reads of each, and those of one packet are its pieces with its id. */
  lemma {:induction false} ExpectedIs(ps: seq<Packet>, p: Packet, capacity: nat)
    requires capacity > 0
    ensures Expected(ps + [p], capacity) == Expected(ps, capacity) + Expected([p], capacity)
    ensures var got, pieces := Expected([p], capacity), Pieces(p.payload, capacity);
      |got| == |pieces| && forall i | 0 <= i < |got| :: got[i].id == p.id && got[i].payload == pieces[i]
  {
    if ps == [] {
      assert [] + [p] == [p] && [p][1..] == [];
    } else {
      ExpectedIs(ps[1..], p, capacity);
      assert (ps + [p])[1..] == ps[1..] + [p];
      ConcatAssociates(Tagged(ps[0].id, Pieces(ps[0].payload, capacity)), Expected(ps[1..], capacity),
                       Expected([p], capacity));
    }
  }

  predicate AllShort(ps: seq<Packet>) {
    forall i | 0 <= i < |ps| :: |ps[i].payload| < 0x1_0000_0000
  }

  class Fd {
    var incoming: seq<byte>
    var written: seq<byte>
    ghost var broken: bool  // an error has cut a transfer short

    constructor (incoming: seq<byte>)
      ensures this.incoming == incoming && written == [] && !broken
    {
      this.incoming, written, broken := incoming, [], false;
    }

    /** ReadFdExactly: all of the bytes, or false if they end or an error comes first. */
    method ReadExactly(len: nat) returns (ok: bool, data: seq<byte>)
      modifies this`incoming, this`broken
      ensures ok ==> |data| == len && old(incoming) == data + incoming && broken == old(broken)
      ensures !ok ==> |old(incoming)| < len || broken
    {
      data := [];
      while |data| < len
        invariant |data| <= len && old(incoming) == data + incoming && broken == old(broken)
      {
        var r: nat :| r <= len - |data| && r <= |incoming|;
        if r == 0 {
          broken := broken || incoming != [];
          return false, [];
        }
        ConcatAssociates(data, incoming[..r], incoming[r..]);
        data, incoming := data + incoming[..r], incoming[r..];
      }
      ok := true;
    }

    /** WriteFdExactly. */
    method WriteExactly(data: seq<byte>) returns (ok: bool)
      modifies this`written, this`broken
      ensures if ok then written == old(written) + data && broken == old(broken)
              else broken && old(written) <= written <= old(written) + data
    {
      var left := data;
      while left != []
        invariant |left| <= |data| && left == data[|data| - |left|..]
        invariant written == old(written) + data[..|data| - |left|] && broken == old(broken)
        decreases |left|
      {
        var r: nat :| r <= |left|;
        if r == 0 {
          broken := true;
          return false;
        }
        ghost var done := |data| - |left|;
        assert data[..done + r] == data[..done] + left[..r];
        written, left := written + left[..r], left[r..];
      }
      ok := true;
    }
  }

  lemma HeaderIs(header: seq<byte>, behind: seq<byte>, p: Packet, more: seq<byte>)
    requires |header| == HEADER_SIZE && header + behind == Serialize(p) + more && |p.payload| < 0x1_0000_0000
    ensures header[0] == p.id && LittleEndian.Decode(header[1..]) == |p.payload| && behind == p.payload + more
  {
    var all := header + behind;
    assert all == [p.id] + LittleEndian.Encode(|p.payload|, 4) + (p.payload + more);
    assert header == all[..HEADER_SIZE] && behind == all[HEADER_SIZE..];
    assert header[1..] == LittleEndian.Encode(|p.payload|, 4);
    LittleEndian.RoundTrips(|p.payload|);
  }

  lemma FirstPacket(header: seq<byte>, behind: seq<byte>, ps: seq<Packet>)
    requires |header| == HEADER_SIZE && header + behind == SerializeAll(ps) && AllShort(ps)
    ensures ps != [] && header[0] == ps[0].id && LittleEndian.Decode(header[1..]) == |ps[0].payload|
    ensures behind == ps[0].payload + SerializeAll(ps[1..]) && AllShort(ps[1..])
  {
    HeaderIs(header, behind, ps[0], SerializeAll(ps[1..]));
  }

  lemma SameStart(a: seq<byte>, b: seq<byte>, c: seq<byte>, d: seq<byte>)
    requires a + b == c + d && |a| <= |c|
    ensures a == c[..|a|] && b == c[|a|..] + d
  {
    assert a == (a + b)[..|a|] && b == (a + b)[|a|..];
  }

  lemma TaggedCons(id: byte, piece: seq<byte>, rest: seq<seq<byte>>)
    ensures Tagged(id, [piece] + rest) == [Packet(id, piece)] + Tagged(id, rest)
  {
  }

  /** The first piece of a packet and what comes after it. */
  lemma PopPiece(id: byte, left: seq<byte>, behind: seq<Packet>, capacity: nat)
    requires capacity > 0
    ensures var n := Min(|left|, capacity);
      Tagged(id, Pieces(left, capacity)) + behind
      == [Packet(id, left[..n])] + ((if left[n..] == [] then [] else Tagged(id, Pieces(left[n..], capacity))) + behind)
  {
    if |left| > capacity {
      var rest := Pieces(left[capacity..], capacity);
      TaggedCons(id, left[..capacity], rest);
      ConcatAssociates([Packet(id, left[..capacity])], Tagged(id, rest), behind);
    } else {
      assert left[..|left|] == left;
      TaggedCons(id, left, []);
      assert Tagged(id, []) == [];
      ConcatAssociates([Packet(id, left)], [], behind);
    }
  }

  class ShellProtocol {
    const fd: Fd
    const capacity: nat
    var id: byte
    var data: seq<byte>  // the data_length_ bytes read last
    var bytesLeft: nat

    constructor (fd: Fd, capacity: nat)
      ensures this.fd == fd && this.capacity == capacity && id == 255 && bytesLeft == 0 && data == []
    {
      this.fd, this.capacity := fd, capacity;
      id, bytesLeft, data := 255, 0, [];
    }

    /** The stream holds the rest of the packet being read, then whole packets. */
    ghost predicate Carries(left: seq<byte>, ps: seq<Packet>)
      reads this, fd
    {
      && capacity > 0 && bytesLeft == |left| && fd.incoming == left + SerializeAll(ps)
      && AllShort(ps)
    }

    /** What the reads still to come return. */
    ghost function ToCome(left: seq<byte>, ps: seq<Packet>): seq<Packet>
      requires capacity > 0
      reads this
    {
      (if left == [] then [] else Tagged(id, Pieces(left, capacity))) + Expected(ps, capacity)
    }

    /** The header of the next packet, if the last one is finished. */
    method ReadHeader(ghost left: seq<byte>, ghost ps: seq<Packet>)
      returns (ok: bool, ghost left': seq<byte>, ghost ps': seq<Packet>)
      requires Carries(left, ps)
      modifies this`id, this`bytesLeft, fd`incoming, fd`broken
      ensures ok ==> Carries(left', ps') && fd.broken == old(fd.broken)
      ensures ok && left != [] ==> left' == left && ps' == ps && id == old(id)
      ensures ok && left == [] ==> ps != [] && Packet(id, left') == ps[0] && ps' == ps[1..]
      ensures !ok ==> (left == [] && ps == []) || fd.broken
    {
      left', ps' := left, ps;
      ok := true;
      if bytesLeft == 0 {
        var header;
        ok, header := fd.ReadExactly(HEADER_SIZE);
        if !ok {
          return;
        }
        FirstPacket(header, fd.incoming, ps);
        id, bytesLeft := header[0], LittleEndian.Decode(header[1..]);
        left', ps' := ps[0].payload, ps[1..];
      }
    }

    /** Read: each successful call returns the next piece that was to come. */
    method Read(ghost left: seq<byte>, ghost ps: seq<Packet>)
      returns (ok: bool, ghost left': seq<byte>, ghost ps': seq<Packet>)
      requires Carries(left, ps)
      modifies this`id, this`bytesLeft, this`data, fd`incoming, fd`broken
      ensures ok ==> Carries(left', ps') && |data| <= capacity
      ensures ok ==> [Packet(id, data)] + ToCome(left', ps') == old(ToCome(left, ps))
      ensures !ok ==> old(ToCome(left, ps)) == [] || fd.broken
    {
      ok, left', ps' := ReadHeader(left, ps);
      if !ok {
        return;
      }
      var readLength := Min(bytesLeft, capacity);
      ghost var whole := left';
      PopPiece(id, whole, Expected(ps', capacity), capacity);
      var piece := [];
      if readLength != 0 {
        ok, piece := fd.ReadExactly(readLength);
        if !ok {
          return;
        }
      }
      SameStart(piece, fd.incoming, whole, SerializeAll(ps'));
      left' := whole[readLength..];
      bytesLeft, data := bytesLeft - readLength, piece;
    }

    /** Reads until one fails: unless that is an error of the fd, they have returned all of the packets. */
    method ReadAll(ghost ps: seq<Packet>) returns (got: seq<Packet>)
      requires capacity > 0 && bytesLeft == 0 && fd.incoming == SerializeAll(ps)
      requires forall i | 0 <= i < |ps| :: |ps[i].payload| < 0x1_0000_0000
      modifies this`id, this`bytesLeft, this`data, fd`incoming, fd`broken
      ensures got <= Expected(ps, capacity) && (got == Expected(ps, capacity) || fd.broken)
    {
      got := [];
      var ok := true;
      ghost var left, rest := [], ps;
      assert [] + SerializeAll(ps) == SerializeAll(ps) && [] + Expected(ps, capacity) == Expected(ps, capacity);
      while ok
        invariant ok ==> Carries(left, rest) && got + ToCome(left, rest) == Expected(ps, capacity)
        invariant got <= Expected(ps, capacity) && (ok || got == Expected(ps, capacity) || fd.broken)
        decreases ok, if ok then |ToCome(left, rest)| else 0
      {
        ghost var before, coming := got, ToCome(left, rest);
        ok, left, rest := Read(left, rest);
        if ok {
          got := got + [Packet(id, data)];
          ConcatAssociates(before, [Packet(id, data)], ToCome(left, rest));
        } else {
          assert got + [] == got;
        }
      }
    }

    /** Write: the packet as a reader on the other side expects it. */
    method Write(newId: byte, payload: seq<byte>) returns (ok: bool)
      requires |payload| <= capacity < 0x1_0000_0000
      modifies this`id, fd`written, fd`broken
      ensures var whole := old(fd.written) + Serialize(Packet(newId, payload));
        if ok then fd.written == whole && fd.broken == old(fd.broken)
        else fd.broken && old(fd.written) <= fd.written <= whole
    {
      id := newId;
      ok := fd.WriteExactly([newId] + LittleEndian.Encode(|payload|, 4) + payload);
    }
  }
}
