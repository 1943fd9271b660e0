/** Facts about products and quotients that the solver needs to be told. */
module Arith {
  function Pow2(n: nat): (p: int)
    ensures p >= 1
  {
    if n == 0 then 1 else 2 * Pow2(n - 1)
  }

  lemma MulLe(a: int, b: int, d: int)
    requires a <= b && 0 <= d
    ensures a * d <= b * d
  {
  }

  lemma MulCancel(a: int, b: int, d: int)
    requires 0 < d && a * d < b * d
    ensures a < b
  {
  }

  lemma DivBounds(m: int, d: int)
    requires 0 < d
    ensures m / d * d <= m < (m / d + 1) * d
  {
  }

  // m / d is the largest q with q * d <= m.
  lemma DivAtLeast(m: int, d: int, q: int)
    requires 0 < d && q * d <= m
    ensures q <= m / d
  {
    DivBounds(m, d);
    MulCancel(q, m / d + 1, d);
  }

  lemma DivBelow(m: int, d: int, q: int)
    requires 0 < d && m < q * d
    ensures m / d < q
  {
  }

  lemma QuotientUnique(m: int, d: int, q: int, r: int)
    requires d > 0 && m == q * d + r && 0 <= r < d
    ensures m / d == q
  {
    DivAtLeast(m, d, q);
    assert (q + 1) * d == q * d + d;
    DivBelow(m, d, q + 1);
  }

  lemma DivDouble(m: int, p: int)
    requires p > 0 && m >= 0
    ensures m / p / 2 == m / (2 * p)
  {
    var q, r := m / p, m % p;
    var q2, r2 := q / 2, q % 2;
    assert m == q * p + r;
    assert q * p == (2 * q2 + r2) * p == q2 * (2 * p) + r2 * p;
    assert 0 <= r2 * p + r < 2 * p;
    QuotientUnique(m, 2 * p, q2, r2 * p + r);
  }
}
