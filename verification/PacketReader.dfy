/** APacketReader of adb/apacket_reader.cpp: packets out of blocks that are cut and merged at any boundary. */
module PacketReader {
  import opened Bytes
  import LittleEndian
  import opened Rope

  const HEADER_SIZE: nat := 24

  /** An apacket: the 24 bytes of its amessage and its payload. */
  datatype Packet = Packet(header: seq<byte>, payload: seq<byte>)

  /** amessage::data_length, a little-endian uint32_t at offset 12. */
  function DataLength(header: seq<byte>): nat
    requires |header| == HEADER_SIZE
  {
    (header[12] as int) + 0x100 * (header[13] as int)
    + 0x1_0000 * (header[14] as int) + 0x100_0000 * (header[15] as int)
  }

  /** The fields of an amessage (adb/types.h). */
  datatype Message = Message(command: nat, arg0: nat, arg1: nat, dataLength: nat, dataCheck: nat, magic: nat)

  function Layout(m: Message): seq<byte> {
    LittleEndian.Encode(m.command, 4) + LittleEndian.Encode(m.arg0, 4) + LittleEndian.Encode(m.arg1, 4)
    + LittleEndian.Encode(m.dataLength, 4) + LittleEndian.Encode(m.dataCheck, 4) + LittleEndian.Encode(m.magic, 4)
  }

  /** A header is as long as an amessage, and its data_length is the fourth field. */
  lemma DataLengthIsFourth(m: Message)
    requires m.dataLength < 0x1_0000_0000
    ensures |Layout(m)| == HEADER_SIZE == 24 && DataLength(Layout(m)) == m.dataLength
  {
    var bytes, field := Layout(m), LittleEndian.Encode(m.dataLength, 4);
    assert bytes[12] == field[0] && bytes[13] == field[1] && bytes[14] == field[2] && bytes[15] == field[3];
    assert field == [field[0], field[1], field[2], field[3]];
    LittleEndian.DecodesFour(field[0], field[1], field[2], field[3]);
    LittleEndian.RoundTrips(m.dataLength);
  }

  predicate WellFormed(p: Packet) {
    |p.header| == HEADER_SIZE && DataLength(p.header) == |p.payload| <= MAX_PAYLOAD
  }

  function Serialize(ps: seq<Packet>): seq<byte> {
    if ps == [] then [] else ps[0].header + ps[0].payload + Serialize(ps[1..])
  }

  /** Whether a whole packet of legal size is at the head of the bytes. */
  predicate HasPacket(bytes: seq<byte>) {
    && |bytes| >= HEADER_SIZE
    && DataLength(bytes[..HEADER_SIZE]) <= MAX_PAYLOAD
    && |bytes| >= HEADER_SIZE + DataLength(bytes[..HEADER_SIZE])
  }

  function First(bytes: seq<byte>): (p: Packet)
    requires HasPacket(bytes)
    ensures WellFormed(p)
  {
    Packet(bytes[..HEADER_SIZE], bytes[HEADER_SIZE..][..DataLength(bytes[..HEADER_SIZE])])
  }

  function AfterFirst(bytes: seq<byte>): (more: seq<byte>)
    requires HasPacket(bytes)
    ensures bytes == First(bytes).header + First(bytes).payload + more
  {
    bytes[HEADER_SIZE + DataLength(bytes[..HEADER_SIZE])..]
  }

  /** What a byte stream says: the whole packets in it, the bytes of the next one, and whether no header announces
      more than MAX_PAYLOAD bytes. */
  datatype Parsed = Parsed(packets: seq<Packet>, rest: seq<byte>, ok: bool)

  function Before(p: Packet, next: Parsed): Parsed {
    next.(packets := [p] + next.packets)
  }

  function Parse(bytes: seq<byte>): Parsed
    decreases |bytes|
  {
    if HasPacket(bytes) then Before(First(bytes), Parse(AfterFirst(bytes)))
    else Parsed([], bytes, |bytes| < HEADER_SIZE || DataLength(bytes[..HEADER_SIZE]) <= MAX_PAYLOAD)
  }

  lemma ParseOne(p: Packet, more: seq<byte>)
    requires WellFormed(p)
    ensures Parse(p.header + p.payload + more) == Before(p, Parse(more))
  {
    var bytes := p.header + p.payload + more;
    assert bytes[..HEADER_SIZE] == p.header;
    assert bytes[HEADER_SIZE..][..|p.payload|] == p.payload;
    assert bytes[HEADER_SIZE + |p.payload|..] == more;
  }

  /** What packets and anything behind them say, which does not start with another whole packet: an error exactly if it
      starts with a header that announces more than a megabyte. */
  lemma {:induction false} ParseIs(ps: seq<Packet>, more: seq<byte>)
    requires forall i | 0 <= i < |ps| ::
               |ps[i].header| == 24 && DataLength(ps[i].header) == |ps[i].payload| <= 0x10_0000
    requires |more| >= 24 ==> DataLength(more[..24]) > 0x10_0000 || |more| < 24 + DataLength(more[..24])
    ensures Parse(Serialize(ps) + more) == Parsed(ps, more, |more| < 24 || DataLength(more[..24]) <= 0x10_0000)
  {
    if ps == [] {
      assert [] + more == more;
    } else {
      ParseIs(ps[1..], more);
      ParseOne(ps[0], Serialize(ps[1..]) + more);
      ConcatAssociates(ps[0].header + ps[0].payload, Serialize(ps[1..]), more);
    }
  }

  /** Parsing inverts serializing. */
  lemma ParseSerialize(ps: seq<Packet>)
    requires forall i | 0 <= i < |ps| :: WellFormed(ps[i])
    ensures Parse(Serialize(ps)) == Parsed(ps, [], true)
  {
    ParseIs(ps, []);
    assert Serialize(ps) + [] == Serialize(ps);
  }

  /** The bytes a parse result accounts for. */
  function Unparse(x: Parsed): seq<byte> {
    Serialize(x.packets) + x.rest
  }

  lemma UnparseBefore(p: Packet, next: Parsed)
    ensures Unparse(Before(p, next)) == p.header + p.payload + Unparse(next)
  {
    assert Before(p, next).packets[1..] == next.packets;
    assert p.header + p.payload + Serialize(next.packets) + next.rest == p.header + p.payload + Unparse(next);
  }

  /** Parsing loses no byte, and yields well-formed packets only. */
  lemma {:induction false} UnparseParse(bytes: seq<byte>)
    ensures Unparse(Parse(bytes)) == bytes
    ensures forall p | p in Parse(bytes).packets :: WellFormed(p)
    decreases |bytes|
  {
    if HasPacket(bytes) {
      UnparseParse(AfterFirst(bytes));
      UnparseBefore(First(bytes), Parse(AfterFirst(bytes)));
    }
  }

  function Behind(ps: seq<Packet>, next: Parsed): Parsed {
    next.(packets := ps + next.packets)
  }

  lemma ParseOneAppend(p: Packet, more: seq<byte>, b: seq<byte>)
    requires WellFormed(p)
    ensures Parse(p.header + p.payload + more + b) == Before(p, Parse(more + b))
  {
    ParseOne(p, more + b);
    assert p.header + p.payload + more + b == p.header + p.payload + (more + b);
  }

  lemma BehindNothing(next: Parsed)
    ensures Behind([], next) == next
  {
    assert [] + next.packets == next.packets;
  }

  lemma BeforeBehind(p: Packet, ps: seq<Packet>, next: Parsed)
    ensures Before(p, Behind(ps, next)) == Behind([p] + ps, next)
  {
    assert [p] + (ps + next.packets) == [p] + ps + next.packets;
  }

  /** A stream may be parsed in pieces. */
  lemma {:induction false} ParseAppend(a: seq<byte>, b: seq<byte>)
    requires Parse(a).ok
    ensures Parse(a + b) == Behind(Parse(a).packets, Parse(Parse(a).rest + b))
    decreases |a|
  {
    if HasPacket(a) {
      var p, more := First(a), AfterFirst(a);
      ParseAppend(more, b);
      ParseOneAppend(p, more, b);
      BeforeBehind(p, Parse(more).packets, Parse(Parse(more).rest + b));
    } else {
      BehindNothing(Parse(a + b));
    }
  }

  /** Nothing behind a header that announces too much is ever looked at. */
  lemma {:induction false} ParseBad(a: seq<byte>, b: seq<byte>)
    requires !Parse(a).ok
    ensures !Parse(a + b).ok && Parse(a + b).packets == Parse(a).packets
    decreases |a|
  {
    if HasPacket(a) {
      ParseBad(AfterFirst(a), b);
      ParseOneAppend(First(a), AfterFirst(a), b);
    } else {
      assert (a + b)[..HEADER_SIZE] == a[..HEADER_SIZE];
    }
  }

  datatype AddResult = OK | ERROR

  /** What the reader must have done with `bytes`: the whole packets are appended and the rest is pending; a header
      that announces too much discards everything behind the packets before it. */
  predicate Reads(bytes: seq<byte>, before: seq<Packet>, r: AddResult, after: seq<Packet>, pending: seq<byte>) {
    var parsed := Parse(bytes);
    && after == before + parsed.packets
    && (r == OK <==> parsed.ok)
    && pending == if parsed.ok then parsed.rest else []
  }

  lemma ReadsNothing(bytes: seq<byte>, before: seq<Packet>)
    requires |bytes| >= HEADER_SIZE ==> |bytes| < HEADER_SIZE + DataLength(bytes[..HEADER_SIZE])
    requires |bytes| >= HEADER_SIZE ==> DataLength(bytes[..HEADER_SIZE]) <= MAX_PAYLOAD
    ensures Reads(bytes, before, OK, before, bytes)
  {
    assert before + [] == before;
  }

  lemma ReadsBadHeader(header: seq<byte>, more: seq<byte>, before: seq<Packet>)
    requires |header| == HEADER_SIZE && DataLength(header) > MAX_PAYLOAD
    ensures Reads(header + more, before, ERROR, before, [])
  {
    assert (header + more)[..HEADER_SIZE] == header;
    assert before + [] == before;
  }

  lemma ReadsPacket(p: Packet, more: seq<byte>, before: seq<Packet>,
                    r: AddResult, after: seq<Packet>, pending: seq<byte>)
    requires WellFormed(p) && Reads(more, before + [p], r, after, pending)
    ensures Reads(p.header + p.payload + more, before, r, after, pending)
  {
    ParseOne(p, more);
    ConcatAssociates(before, [p], Parse(more).packets);
  }

  lemma ReadsMore(bytes: seq<byte>, before: seq<Packet>, mid: seq<Packet>, pending: seq<byte>,
                  more: seq<byte>, r: AddResult, after: seq<Packet>, rest: seq<byte>)
    requires Reads(bytes, before, OK, mid, pending) && Reads(pending + more, mid, r, after, rest)
    ensures Reads(bytes + more, before, r, after, rest)
  {
    ParseAppend(bytes, more);
    ConcatAssociates(before, Parse(bytes).packets, Parse(pending + more).packets);
  }

  lemma ReadsChunk(start: seq<byte>, chunks: seq<seq<byte>>, i: nat, before: seq<Packet>, mid: seq<Packet>,
                   pending: seq<byte>, r: AddResult, after: seq<Packet>, rest: seq<byte>)
    requires i < |chunks| && Reads(start + Flatten(chunks[..i]), before, OK, mid, pending)
    requires Reads(pending + chunks[i], mid, r, after, rest)
    ensures Reads(start + Flatten(chunks[..i + 1]), before, r, after, rest)
  {
    ReadsMore(start + Flatten(chunks[..i]), before, mid, pending, chunks[i], r, after, rest);
    FlattenTake(chunks, i);
    ConcatAssociates(start, Flatten(chunks[..i]), chunks[i]);
  }

  lemma ReadsBadMore(bytes: seq<byte>, before: seq<Packet>, after: seq<Packet>, rest: seq<byte>, more: seq<byte>)
    requires Reads(bytes, before, ERROR, after, rest)
    ensures Reads(bytes + more, before, ERROR, after, rest)
  {
    ParseBad(bytes, more);
  }

  /** What Reads says of a serialization with something behind it: exactly its packets come out, and the rest waits,
      unless it starts with a header that announces too much; then nothing waits. */
  lemma ReadsSerialized(ps: seq<Packet>, more: seq<byte>, before: seq<Packet>, r: AddResult, after: seq<Packet>,
                        pending: seq<byte>)
    requires forall i | 0 <= i < |ps| ::
               |ps[i].header| == 24 && DataLength(ps[i].header) == |ps[i].payload| <= 0x10_0000
    requires |more| >= 24 ==> DataLength(more[..24]) > 0x10_0000 || |more| < 24 + DataLength(more[..24])
    ensures var bad := |more| >= 24 && DataLength(more[..24]) > 0x10_0000;
      Reads(Serialize(ps) + more, before, r, after, pending)
      <==> after == before + ps && (r == ERROR <==> bad) && pending == if bad then [] else more
  {
    ParseIs(ps, more);
  }

  class APacketReader {
    const header: Block
    var packet: Block?  // the payload under way, if packet_ is set
    var packets: seq<Packet>

    ghost predicate Valid()
      reads this, header, packet
    {
      && header.Valid() && |header.data| == HEADER_SIZE && header.position <= HEADER_SIZE
      && (header.position == HEADER_SIZE ==> 0 < DataLength(header.data) <= MAX_PAYLOAD)
      && (packet != null ==>
            && packet != header && packet.Valid() && header.position == HEADER_SIZE
            && packet.position < |packet.data| == DataLength(header.data))
    }

    /** The bytes read of the packet under way. */
    ghost function Pending(): seq<byte>
      requires Valid()
      reads this, header, packet
    {
      if packet == null then header.data[..header.position] else header.data + packet.data[..packet.position]
    }

    constructor ()
      ensures Valid() && fresh(header) && Pending() == [] && packets == []
    {
      header := new Block(seq(HEADER_SIZE, _ => 0));
      packet, packets := null, [];
    }

    method PrepareForNextPacket()
      requires header.Valid() && |header.data| == HEADER_SIZE
      modifies this`packet, header`position
      ensures Valid() && packet == null && header.position == 0
    {
      header.position, packet := 0, null;
    }

    method AddPacket(payload: seq<byte>)
      requires header.Valid() && |header.data| == HEADER_SIZE
      modifies this`packet, this`packets, header`position
      ensures Valid() && packet == null && header.position == 0 && Pending() == []
      ensures packets == old(packets) + [Packet(header.data, payload)]
    {
      packets := packets + [Packet(header.data, payload)];
      PrepareForNextPacket();
    }

    ghost predicate Accepts(block: Block)
      reads this, block
    {
      block.Valid() && block.position <= |block.data| && block != header && block != packet
    }

    /** header_.fillFrom(block). */
    method FillHeader(block: Block)
      requires Valid() && Accepts(block) && block.position < |block.data|
      modifies header`data, header`position, block`position
      ensures header.Valid() && |header.data| == HEADER_SIZE && header.position <= HEADER_SIZE && Accepts(block)
      ensures old(header.position) == HEADER_SIZE ==> Valid() && header.data == old(header.data)
      ensures old(header.position) < HEADER_SIZE ==> block.position > old(block.position)
      ensures header.position < HEADER_SIZE ==> block.position == |block.data|
      ensures block.position >= old(block.position)
      ensures old(header.position) < HEADER_SIZE ==>
                header.data[..header.position] + block.data[block.position..]
                == old(Pending()) + old(block.data[block.position..])
      ensures old(header.position) == HEADER_SIZE ==>
                header.position == HEADER_SIZE && block.position == old(block.position)
    {
      var n := header.FillFrom(block);
    }

    /** packet_->payload.fillFrom(block). */
    method FillPayload(block: Block)
      requires Valid() && Accepts(block) && packet != null && block.position < |block.data|
      modifies packet`data, packet`position, block`position
      ensures packet.Valid() && |packet.data| == DataLength(header.data) && packet.position <= |packet.data|
      ensures Accepts(block) && block.position > old(block.position)
      ensures packet.position < |packet.data| ==> block.position == |block.data|
      ensures header.data + packet.data[..packet.position] + block.data[block.position..]
              == old(Pending()) + old(block.data[block.position..])
    {
      var n := packet.FillFrom(block);
    }

    /** The zero-copy path: the block is the whole payload. */
    method AdoptPayload(block: Block) returns (r: AddResult)
      requires Valid() && block.Valid() && block != header && packet == null && header.position == HEADER_SIZE
      requires |block.data| == DataLength(header.data) != 0
      modifies this`packet, this`packets, header`position, block
      ensures Valid() && packet == null
      ensures Reads(old(Pending()) + old(block.data), old(packets), r, packets, Pending()) == true
    {
      ghost var p, before := Packet(header.data, block.data), packets;
      assert Pending() + block.data == p.header + p.payload + [];
      packet := new Block([]);
      packet.Assign(block);
      AddPacket(packet.data);
      ReadsNothing([], packets);
      ReadsPacket(p, [], before, OK, packets, []);
      return OK;
    }

    /** add_bytes, once the header is complete and announces a payload. */
    method AddPayload(block: Block) returns (r: AddResult)
      requires Valid() && Accepts(block) && block.position < |block.data| && header.position == HEADER_SIZE
      modifies this`packet, this`packets, header`data, header`position, packet, block
      ensures Valid() && (packet == null || packet == old(packet) || fresh(packet))
      ensures Reads(old(Pending()) + old(block.data[block.position..]), old(packets), r, packets, Pending()) == true
      decreases |block.data| - block.position, 0
    {
      ghost var bytes, before := Pending() + block.data[block.position..], packets;
      if packet == null {
        if block.position == 0 && |block.data| - block.position == DataLength(header.data) {
          assert block.data[block.position..] == block.data;
          r := AdoptPayload(block);
          return;
        }
        packet := new Block(seq(DataLength(header.data), _ => 0));
        assert bytes == Pending() + block.data[block.position..];
      }
      FillPayload(block);
      if packet.position == |packet.data| {
        ghost var p, more := Packet(header.data, packet.data), block.data[block.position..];
        assert packet.data[..packet.position] == packet.data;
        AddPacket(packet.data);
        assert Pending() + more == more;
        if block.position < |block.data| {
          r := AddBytes(block);
        } else {
          r := OK;
          ReadsNothing([], packets);
        }
        ReadsPacket(p, more, before, r, packets, Pending());
      } else {
        assert bytes == Pending();
        ReadsNothing(bytes, packets);
        r := OK;
      }
    }

    /** add_bytes: every byte of the block is read, whatever the packets it cuts or merges. */
    method AddBytes(block: Block) returns (r: AddResult)
      requires Valid() && Accepts(block)
      modifies this`packet, this`packets, header`data, header`position, packet, block
      ensures Valid() && (packet == null || packet == old(packet) || fresh(packet))
      ensures Reads(old(Pending()) + old(block.data[block.position..]), old(packets), r, packets, Pending()) == true
      decreases |block.data| - block.position, 1
    {
      ghost var bytes := Pending() + block.data[block.position..];
      if block.position == |block.data| {
        assert bytes == Pending();
        ReadsNothing(bytes, packets);
        return OK;
      }
      FillHeader(block);
      if header.position != HEADER_SIZE {
        assert bytes == header.data[..header.position];
        ReadsNothing(bytes, packets);
        return OK;
      }
      assert header.data[..header.position] == header.data;
      if DataLength(header.data) > MAX_PAYLOAD {
        PrepareForNextPacket();
        ReadsBadHeader(header.data, block.data[block.position..], packets);
        return ERROR;
      }
      if DataLength(header.data) == 0 {
        r := AddEmptyPacket(block);
        return;
      }
      if block.position == |block.data| {
        assert bytes == Pending();
        ReadsNothing(bytes, packets);
        return OK;
      }
      r := AddPayload(block);
    }

    /** add_bytes, once the header is complete and announces no payload. */
    method AddEmptyPacket(block: Block) returns (r: AddResult)
      requires header.Valid() && |header.data| == HEADER_SIZE && DataLength(header.data) == 0
      requires block.Valid() && block.position <= |block.data| && block != header
      modifies this`packet, this`packets, header`data, header`position, block
      ensures Valid() && (packet == null || fresh(packet))
      ensures Reads(old(header.data + block.data[block.position..]), old(packets), r, packets, Pending()) == true
      decreases |block.data| - block.position, 2
    {
      ghost var p, more, before := Packet(header.data, []), block.data[block.position..], packets;
      AddPacket([]);
      assert Pending() + more == more;
      r := AddBytes(block);
      assert p.header + p.payload + more == p.header + more;
      ReadsPacket(p, more, before, r, packets, Pending());
    }

    /** A run of add_bytes, up to the first error: how the bytes are cut into blocks makes no difference. */
    method AddAll(chunks: seq<seq<byte>>) returns (r: AddResult)
      requires Valid()
      modifies this`packet, this`packets, header`data, header`position, packet
      ensures Valid()
      ensures Reads(old(Pending()) + Flatten(chunks), old(packets), r, packets, Pending()) == true
    {
      ghost var start, before := Pending(), packets;
      r := OK;
      assert start + Flatten([]) == start;
      ReadsNothing(start, packets);
      for i := 0 to |chunks|
        invariant Valid() && (packet == null || packet == old(packet) || fresh(packet))
        invariant r == OK && Reads(start + Flatten(chunks[..i]), before, OK, packets, Pending()) == true
      {
        var block := new Block(chunks[i]);
        ghost var mid, pending := packets, Pending();
        assert block.data[block.position..] == chunks[i];
        r := AddBytes(block);
        ReadsChunk(start, chunks, i, before, mid, pending, r, packets, Pending());
        if r == ERROR {
          FlattenSplit(chunks, i + 1);
          ConcatAssociates(start, Flatten(chunks[..i + 1]), Flatten(chunks[i + 1..]));
          ReadsBadMore(start + Flatten(chunks[..i + 1]), before, packets, Pending(), Flatten(chunks[i + 1..]));
          return;
        }
      }
      assert chunks[..|chunks|] == chunks;
    }

    /** get_packets. */
    method GetPackets() returns (ret: seq<Packet>)
      requires Valid()
      modifies this`packets
      ensures Valid() && ret == old(packets) && packets == [] && Pending() == old(Pending())
    {
      ret := packets;
      packets := [];
    }
  }
}
