/** The page rounding of mkbootimg in fastboot/bootimg_utils.cpp, and what it makes of a list of section sizes. */
module PageRounding {
  import opened Arithmetic
  import opened Bytes

  /** n & ~mask, bit by bit. */
  function AndNot(n: nat, mask: nat): nat {
    if n == 0 then 0
    else (if n % 2 == 1 && mask % 2 == 0 then 1 else 0) + 2 * AndNot(n / 2, mask / 2)
  }

  predicate IsPowerOfTwo(p: nat) {
    p == 1 || (p > 0 && p % 2 == 0 && IsPowerOfTwo(p / 2))
  }

  /** page_mask: page_size - 1 as a uint32_t. */
  function Mask(page: nat): nat {
    if page == 0 then 0xffff_ffff else page - 1
  }

  /** (n + page_mask) & ~page_mask. */
  function Round(n: nat, page: nat): nat {
    AndNot(n + Mask(page), Mask(page))
  }

  /** The whole pages that hold n bytes. */
  function Pages(n: nat, page: nat): nat
    requires page > 0
  {
    page * ((n + page - 1) / page)
  }

  lemma {:induction false} AndNotZero(n: nat)
    ensures AndNot(n, 0) == n
  {
    if n > 0 {
      AndNotZero(n / 2);
    }
  }

  lemma {:induction false} AndNotSelf(n: nat)
    ensures AndNot(n, n) == 0
  {
    if n > 0 {
      AndNotSelf(n / 2);
    }
  }

  lemma Doubled(h: nat, x: nat)
    ensures 2 * (h * x) == (2 * h) * x
  {
  }

  lemma {:induction false} MaskClears(n: nat, p: nat)
    requires IsPowerOfTwo(p)
    ensures AndNot(n, p - 1) == p * (n / p)
    decreases p
  {
    if p == 1 {
      AndNotZero(n);
    } else {
      var h := p / 2;
      MaskClears(n / 2, h);
      assert (p - 1) / 2 == h - 1 && (p - 1) % 2 == 1;
      DivTwice(n, 2, h);
      Doubled(h, n / 2 / h);
    }
  }

  lemma {:induction false} OnlyPowersClear(p: nat)
    requires p > 0 && AndNot(p, p - 1) == p
    ensures IsPowerOfTwo(p)
  {
    if p % 2 == 0 {
      assert (p - 1) / 2 == p / 2 - 1 && (p - 1) % 2 == 1;
      OnlyPowersClear(p / 2);
    } else {
      assert (p - 1) / 2 == p / 2;
      AndNotSelf(p / 2);
    }
  }

  /** The mask form rounds every size up to whole pages exactly if the page size is a power of two. */
  lemma RoundsUpIff(page: nat)
    requires page > 0
    ensures (forall n: nat :: Round(n, page) == Pages(n, page)) <==> IsPowerOfTwo(page)
  {
    if IsPowerOfTwo(page) {
      forall n: nat ensures Round(n, page) == Pages(n, page) {
        MaskClears(n + (page - 1), page);
      }
    }
    if forall n: nat :: Round(n, page) == Pages(n, page) {
      assert Round(1, page) == Pages(1, page);
      DivModIs(page, page, 1, 0);
      OnlyPowersClear(page);
    }
  }

  lemma {:induction false} AndNotBetween(n: nat, mask: nat)
    ensures AndNot(n, mask) <= n <= AndNot(n, mask) + mask
  {
    if n > 0 {
      AndNotBetween(n / 2, mask / 2);
    }
  }

  /** Whatever the page size, rounding never goes down, and goes up by less than a page. */
  lemma RoundHolds(n: nat, page: nat)
    ensures n <= Round(n, page) <= n + Mask(page)
  {
    AndNotBetween(n + Mask(page), Mask(page));
  }

  lemma FirstPage(n: nat, page: nat, q: nat, r: nat)
    requires 0 < n && n + (page - 1) == page * q + r && r < page
    ensures page <= page * q && (n <= page ==> page * q == page)
  {
    assert q > 0;
    assert page * q == page + page * (q - 1);
    if n <= page {
      DivisionIsUnique(page, q, r, 1, n - 1);
    }
  }

  lemma Divide(x: nat, page: nat) returns (q: nat, r: nat)
    requires page > 0
    ensures q == x / page && x == page * q + r && r < page
  {
    q, r := x / page, x % page;
  }

  lemma RoundIs(n: nat, page: nat) returns (q: nat, r: nat)
    requires IsPowerOfTwo(page)
    ensures Round(n, page) == page * q && n + (page - 1) == page * q + r && r < page
  {
    var x := n + (page - 1);
    MaskClears(x, page);
    q, r := Divide(x, page);
  }

  lemma RoundFirstPage(n: nat, page: nat)
    requires IsPowerOfTwo(page) && n > 0
    ensures page <= Round(n, page) && (n <= page ==> Round(n, page) == page)
  {
    var q, r := RoundIs(n, page);
    FirstPage(n, page, q, r);
  }

  lemma RoundIsAligned(n: nat, page: nat)
    requires IsPowerOfTwo(page)
    ensures Round(n, page) % page == 0
  {
    var q, r := RoundIs(n, page);
    DivModIs(Round(n, page), page, q, 0);
  }

  lemma SumOfPages(page: nat, a: nat, b: nat)
    requires page > 0
    ensures (page * a + page * b) % page == 0
  {
    assert page * a + page * b == page * (a + b);
    DivModIs(page * (a + b), page, a + b, 0);
  }

  lemma SumIsAligned(a: nat, b: nat, page: nat)
    requires page > 0 && a % page == 0 && b % page == 0
    ensures (a + b) % page == 0
  {
    assert a == page * (a / page) && b == page * (b / page);
    SumOfPages(page, a / page, b / page);
  }

  /** Where sections of these sizes end, each rounded up. */
  function End(sizes: seq<nat>, page: nat): nat {
    if sizes == [] then 0 else End(sizes[..|sizes| - 1], page) + Round(sizes[|sizes| - 1], page)
  }

  /** Every section starts on a page of its own, */
  lemma {:induction false} EndIsAligned(sizes: seq<nat>, page: nat)
    requires IsPowerOfTwo(page)
    ensures End(sizes, page) % page == 0
  {
    if sizes == [] {
      DivModIs(0, page, 0, 0);
    } else {
      EndIsAligned(sizes[..|sizes| - 1], page);
      RoundIsAligned(sizes[|sizes| - 1], page);
      SumIsAligned(End(sizes[..|sizes| - 1], page), Round(sizes[|sizes| - 1], page), page);
    }
  }

  /** and, whatever the page size, ends before the next starts. */
  lemma {:induction false} SectionsAreApart(sizes: seq<nat>, i: nat, page: nat)
    requires i < |sizes|
    ensures End(sizes[..i], page) + sizes[i] <= End(sizes[..i + 1], page) <= End(sizes, page)
    decreases |sizes|
  {
    var init, last := sizes[..|sizes| - 1], sizes[|sizes| - 1];
    if i == |sizes| - 1 {
      RoundHolds(last, page);
      assert sizes[..i + 1] == sizes;
    } else {
      SectionsAreApart(init, i, page);
      assert init[..i] == sizes[..i] && init[..i + 1] == sizes[..i + 1] && init[i] == sizes[i];
    }
  }

  lemma EndSnoc(sizes: seq<nat>, last: nat, page: nat)
    ensures End(sizes + [last], page) == End(sizes, page) + Round(last, page)
  {
    assert (sizes + [last])[..|sizes|] == sizes;
  }

  /** The same for any two prefixes. */
  lemma EndsRise(sizes: seq<nat>, i: nat, j: nat, page: nat)
    requires i < j <= |sizes|
    ensures End(sizes[..i], page) + sizes[i] <= End(sizes[..j], page)
  {
    SectionsAreApart(sizes[..j], i, page);
    assert sizes[..j][..i] == sizes[..i];
  }

  /** The sizes as the header's uint32_t fields hold them. */
  function Truncated(sizes: seq<nat>): (t: seq<nat>)
    ensures |t| == |sizes| && forall i | 0 <= i < |t| :: t[i] == AsUint32(sizes[i])
  {
    seq(|sizes|, i requires 0 <= i < |sizes| => AsUint32(sizes[i]))
  }

  /** A truncated size always takes fewer pages. */
  lemma RoundTruncated(n: nat, page: nat)
    requires page <= 0x1_0000_0000
    ensures if n < 0x1_0000_0000 then AsUint32(n) == n else Round(AsUint32(n), page) < Round(n, page)
  {
    RoundHolds(n, page);
    RoundHolds(AsUint32(n), page);
  }

  /** The truncated sizes end where the true ones do exactly if each of them fits a uint32_t, else before that. */
  lemma {:induction false} EndTruncated(sizes: seq<nat>, page: nat)
    requires page <= 0x1_0000_0000
    ensures End(Truncated(sizes), page) <= End(sizes, page)
    ensures End(Truncated(sizes), page) == End(sizes, page) <==> forall i | 0 <= i < |sizes| :: sizes[i] < 0x1_0000_0000
  {
    if sizes != [] {
      var n := |sizes| - 1;
      assert Truncated(sizes)[..n] == Truncated(sizes[..n]);
      EndTruncated(sizes[..n], page);
      RoundTruncated(sizes[n], page);
    }
  }
}
