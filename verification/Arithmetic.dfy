/** Facts about products, quotients and remainders. */
module Arithmetic {

  lemma {:induction false} MulAtLeast(x: nat, m: nat)
    requires x >= 1
    ensures x * m >= m
  {
    assert x * m == (x - 1) * m + m;
  }

  /** Quotient and remainder are determined by their defining equation. */
  lemma DivModUnique(n: nat, m: nat, q: nat, r: nat)
    requires r < m && n == q * m + r
    ensures n / m == q && n % m == r
  {
    var p := n / m;
    assert n == p * m + n % m;
    assert (p - q) * m == p * m - q * m && (q - p) * m == q * m - p * m;
    if p > q {
      MulAtLeast(p - q, m);
    } else if p < q {
      MulAtLeast(q - p, m);
    }
  }

  lemma DivStep(n: nat, m: nat)
    requires 0 < m <= n
    ensures n / m == (n - m) / m + 1
  {
    var q, r := (n - m) / m, (n - m) % m;
    assert (q + 1) * m == q * m + m;
    DivModUnique(n, m, q + 1, r);
  }
}
