/** Division facts that the verifier does not find for a variable divisor. */
module Arithmetic {
  lemma AtLeastOnce(d: nat, a: nat, b: nat)
    requires a > b
    ensures d * a >= d * b + d
  {
    assert d * a == d * b + d * (a - b);
    assert d * (a - b) == d + d * (a - b - 1);
  }

  lemma DivisionIsUnique(d: nat, a: nat, r: nat, b: nat, s: nat)
    requires r < d && s < d && d * a + r == d * b + s
    ensures a == b && r == s
  {
    if a > b {
      AtLeastOnce(d, a, b);
    } else if b > a {
      AtLeastOnce(d, b, a);
    }
  }

  lemma DivModIs(x: nat, d: nat, q: nat, r: nat)
    requires x == d * q + r && r < d
    ensures x / d == q && x % d == r
  {
    DivisionIsUnique(d, q, r, x / d, x % d);
  }

  lemma DivMod(n: nat, d: nat)
    requires d > 0
    ensures n == d * (n / d) + n % d && n % d < d
  {
  }

  lemma Distributes(a: nat, b: nat, q: nat, r: nat)
    ensures a * (b * q + r) == a * b * q + a * r
  {
    assert a * (b * q + r) == a * (b * q) + a * r;
    assert a * (b * q) == a * b * q;
  }

  lemma DivTwiceOf(n: nat, a: nat, b: nat, d: nat, q: nat, r: nat, s: nat)
    requires n == a * d + s && s < a && d == b * q + r && r < b
    ensures a * b > 0 && n / (a * b) == q && n % (a * b) == a * r + s
  {
    Distributes(a, b, q, r);
    AtLeastOnce(a, b, r);
    assert a * r >= 0;
    DivModIs(n, a * b, q, a * r + s);
  }

  /** Dividing by a product, factor by factor. */
  lemma DivTwice(n: nat, a: nat, b: nat)
    requires a > 0 && b > 0
    ensures a * b > 0 && n / a / b == n / (a * b) && n % (a * b) == n % a + a * (n / a % b)
  {
    DivMod(n, a);
    DivMod(n / a, b);
    DivTwiceOf(n, a, b, n / a, n / a / b, n / a % b, n % a);
  }
}
