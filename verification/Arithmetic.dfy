/** Facts about products and quotients that the other modules share. */
module Arithmetic {
  lemma TimesAtLeast(a: int, d: int)
    requires 1 <= a && 0 <= d
    ensures d <= a * d
  {
  }

  /** Quotient and remainder are unique. */
  lemma DivisionIsUnique(q: int, r: int, q': int, r': int, d: int)
    requires 0 <= r < d && 0 <= r' < d && q * d + r == q' * d + r'
    ensures q == q' && r == r'
  {
    assert (q - q') * d == r' - r;
    if q > q' {
      TimesAtLeast(q - q', d);
    } else if q < q' {
      assert (q' - q) * d == r - r';
      TimesAtLeast(q' - q, d);
    }
  }

  lemma QuotientIs(x: int, d: int, q: int, r: int)
    requires 0 <= r < d && x == q * d + r
    ensures x / d == q && x % d == r
  {
    assert x == x / d * d + x % d;
    DivisionIsUnique(x / d, x % d, q, r, d);
  }

  lemma Distribute(q: int, b: int, c: int, d: int)
    ensures (c * q + b) * d == q * (c * d) + b * d
  {
    assert (c * q + b) * d == c * q * d + b * d;
    assert c * q * d == q * (c * d);
  }

  lemma TimesAtMost(b: int, c: int, d: int)
    requires 0 <= b < c && 0 < d
    ensures 0 <= b * d && b * d + d <= c * d
  {
    assert c * d - b * d == (c - b) * d;
    TimesAtLeast(c - b, d);
  }

  lemma DivideTwice(x: int, c: int, d: int)
    requires 0 < c && 0 < d
    ensures 0 < c * d && x / d / c == x / (c * d)
  {
    TimesAtLeast(c, d);
    var y := x / d;
    var q, b := y / c, y % c;
    assert y == c * q + b;
    assert x == y * d + x % d;
    Distribute(q, b, c, d);
    TimesAtMost(b, c, d);
    QuotientIs(x, c * d, q, b * d + x % d);
  }
}
