/** Numbers as they lie in the memory of a little-endian machine. */
module LittleEndian {
  import opened Arithmetic
  import opened Bytes

  function Encode(n: nat, width: nat): (bytes: seq<byte>)
    ensures |bytes| == width
  {
    if width == 0 then [] else [n % 0x100] + Encode(n / 0x100, width - 1)
  }

  function Decode(bytes: seq<byte>): nat {
    if bytes == [] then 0 else bytes[0] as int + 0x100 * Decode(bytes[1..])
  }

  lemma Unfold(n: nat, width: nat)
    requires width > 0
    ensures Decode(Encode(n, width)) == n % 0x100 + 0x100 * Decode(Encode(n / 0x100, width - 1))
  {
    assert Encode(n, width)[1..] == Encode(n / 0x100, width - 1);
  }

  /** Four bytes hold a number modulo 2^32. */
  lemma RoundTrips(n: nat)
    ensures Decode(Encode(n, 4)) == n % 0x1_0000_0000
  {
    var a := n / 0x100;
    var b := a / 0x100;
    var c := b / 0x100;
    Unfold(n, 4);
    Unfold(a, 3);
    Unfold(b, 2);
    Unfold(c, 1);
    assert Decode(Encode(c / 0x100, 0)) == 0;
    DivTwice(n, 0x100, 0x100_0000);
    DivTwice(a, 0x100, 0x1_0000);
    DivTwice(b, 0x100, 0x100);
  }

  /** The value of four bytes, the first of them the least significant. */
  lemma DecodesFour(a: byte, b: byte, c: byte, d: byte)
    ensures Decode([a, b, c, d]) == a as int + 0x100 * b as int + 0x1_0000 * c as int + 0x100_0000 * d as int
  {
    assert [a, b, c, d][1..] == [b, c, d] && [b, c, d][1..] == [c, d] && [c, d][1..] == [d];
    assert Decode([d]) == d as int && Decode([c, d]) == c as int + 0x100 * Decode([d]);
    assert Decode([b, c, d]) == b as int + 0x100 * Decode([c, d]);
  }
}
