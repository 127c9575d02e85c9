/** Powers of two, and division with remainder by a variable divisor. */
module Arithmetic {
  function Pow2(n: nat): (p: nat)
    ensures p > 0
  {
    if n == 0 then 1 else 2 * Pow2(n - 1)
  }

  lemma DivMod(x: nat, n: nat)
    requires n > 0
    ensures x == x / n * n + x % n && 0 <= x % n < n
  {
  }

  lemma Distribute(a: int, b: int, n: int)
    ensures (a - b) * n == a * n - b * n
  {
  }

  lemma Times(k: int, n: nat)
    requires k >= 1
    ensures k * n >= n
  {
  }

  lemma SameRemainder(q: int, r: nat, d: int, s: nat, n: nat)
    requires r < n && s < n && q * n + r == d * n + s
    ensures r == s && q == d
  {
    Distribute(q, d, n);
    Distribute(d, q, n);
    if q > d {
      Times(q - d, n);
    }
    if d > q {
      Times(d - q, n);
    }
  }

  /** Quotient and remainder are unique. */
  lemma Remainder(x: nat, n: nat, q: int, r: nat)
    requires r < n && x == q * n + r
    ensures x % n == r && x / n == q
  {
    DivMod(x, n);
    SameRemainder(q, r, x / n, x % n, n);
  }
}
