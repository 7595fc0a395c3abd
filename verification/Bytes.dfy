/** Byte sequences and the option type shared by every module. */
module Bytes {

  type byte = x: int | 0 <= x < 256

  datatype Option<+T> = None | Some(value: T)

  /** The largest payload of an adb packet. */
  const MAX_PAYLOAD: nat := 1024 * 1024

  function Min(a: nat, b: nat): nat {
    if a <= b then a else b
  }

  function Max(a: nat, b: nat): nat {
    if a >= b then a else b
  }

  /** A count stored in a uint32_t: the remainder modulo 2^32. */
  function AsUint32(n: nat): (r: nat)
    ensures r <= n && r < 0x1_0000_0000 && (n < 0x1_0000_0000 ==> r == n)
    ensures n >= 0x1_0000_0000 ==> r + 0x1_0000_0000 <= n
  {
    if n < 0x1_0000_0000 then n else AsUint32(n - 0x1_0000_0000)
  }

  /** A uint32_t read back as an int32_t. */
  function AsInt32(n: nat): int {
    if AsUint32(n) < 0x8000_0000 then AsUint32(n) else AsUint32(n) - 0x1_0000_0000
  }

  lemma {:induction false} AsUint32IsRemainder(n: nat)
    ensures AsUint32(n) == n % 0x1_0000_0000
  {
    if n >= 0x1_0000_0000 {
      AsUint32IsRemainder(n - 0x1_0000_0000);
    }
  }

  /** It is the number in the range of an int32_t that differs by a multiple of 2^32. */
  lemma AsInt32IsSigned(n: nat)
    ensures -0x8000_0000 <= AsInt32(n) < 0x8000_0000 && (AsInt32(n) - n) % 0x1_0000_0000 == 0
  {
    AsUint32IsRemainder(n);
  }

  /** The concatenation of a list of byte strings. */
  function Flatten(parts: seq<seq<byte>>): seq<byte> {
    if parts == [] then [] else parts[0] + Flatten(parts[1..])
  }

  lemma ConcatAssociates<T>(a: seq<T>, b: seq<T>, c: seq<T>)
    ensures a + b + c == a + (b + c)
  {
  }

  lemma {:induction false} FlattenAppend(a: seq<seq<byte>>, b: seq<seq<byte>>)
    ensures Flatten(a + b) == Flatten(a) + Flatten(b)
  {
    if a == [] {
      assert a + b == b;
    } else {
      FlattenAppend(a[1..], b);
      assert (a + b)[0] == a[0] && (a + b)[1..] == a[1..] + b;
      ConcatAssociates(a[0], Flatten(a[1..]), Flatten(b));
    }
  }

  lemma FlattenOne(p: seq<byte>)
    ensures Flatten([p]) == p
  {
    assert Flatten([p]) == p + Flatten([]);
  }

  lemma FlattenSnoc(a: seq<seq<byte>>, p: seq<byte>)
    ensures Flatten(a + [p]) == Flatten(a) + p
  {
    FlattenAppend(a, [p]);
    FlattenOne(p);
  }

  lemma FlattenSplit(a: seq<seq<byte>>, i: nat)
    requires i <= |a|
    ensures Flatten(a) == Flatten(a[..i]) + Flatten(a[i..])
  {
    FlattenAppend(a[..i], a[i..]);
    assert a == a[..i] + a[i..];
  }

  lemma FlattenTake(a: seq<seq<byte>>, i: nat)
    requires i < |a|
    ensures Flatten(a[..i + 1]) == Flatten(a[..i]) + a[i]
  {
    assert a[..i + 1] == a[..i] + [a[i]];
    FlattenSnoc(a[..i], a[i]);
  }
}
