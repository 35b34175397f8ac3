/** Facts about products and quotients that the solver does not find by itself. */
module Arithmetic {

  lemma MulMono(a: int, b: int, d: int)
    requires a <= b && 0 <= d
    ensures a * d <= b * d
  {
    assert (b - a) * d == b * d - a * d;
  }

  lemma MulLess(a: int, b: int, d: int)
    requires 0 <= a < b && 0 < d
    ensures 0 <= a * d && a * d + d <= b * d
  {
    MulMono(0, a, d);
    MulMono(a + 1, b, d);
    assert (a + 1) * d == a * d + d;
  }

  lemma DivModUnique(q: int, r: int, d: int)
    requires 0 <= r < d
    ensures (q * d + r) / d == q && (q * d + r) % d == r
  {
    var m := (q * d + r) / d;
    assert q * d + r == m * d + (q * d + r) % d;
    if m < q {
      MulMono(m + 1, q, d);
    } else if q < m {
      MulMono(q + 1, m, d);
    }
  }

  lemma DivLess(n: int, q: int, d: int)
    requires 0 <= n < q * d && 0 < d
    ensures 0 <= n / d < q
  {
    assert n == (n / d) * d + n % d;
    if q <= n / d {
      MulMono(q, n / d, d);
    }
  }
}
