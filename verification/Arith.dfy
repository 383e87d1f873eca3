/** Division facts the solver does not find by itself. */
module Arith {

  function Min(a: nat, b: nat): nat {
    if a < b then a else b
  }

  function Max(a: nat, b: nat): nat {
    if a < b then b else a
  }

  lemma AtLeastOnce(k: int, d: nat)
    requires k >= 1
    ensures k * d >= d
  {
    Spread(k - 1, 1, d);
  }

  lemma Spread(j: int, k: int, d: int)
    ensures (j + k) * d == j * d + k * d
    ensures d * (j + k) == d * j + d * k
  {
  }

  lemma DivMod(n: int, d: nat)
    requires d > 0
    ensures n == (n / d) * d + n % d && 0 <= n % d < d
  {
  }

  /** The quotient and the remainder are what their equation says. */
  lemma DivModUnique(n: int, d: nat, q: int, r: int)
    requires 0 <= r < d && n == q * d + r
    ensures n / d == q && n % d == r
  {
    var q', r' := n / d, n % d;
    DivMod(n, d);
    if q > q' {
      AtLeastOnce(q - q', d);
      Spread(q - q', q', d);
    } else if q < q' {
      AtLeastOnce(q' - q, d);
      Spread(q' - q, q, d);
    }
  }

  /** A quotient lies below `b` exactly when the dividend lies below `b` divisors. */
  lemma DivBelow(a: int, d: nat, b: int)
    requires d > 0
    ensures a / d < b <==> a < b * d
  {
    var q := a / d;
    DivMod(a, d);
    if q < b {
      AtLeastOnce(b - q, d);
      Spread(b - q, q, d);
    } else if q > b {
      AtLeastOnce(q - b, d);
      Spread(q - b, b, d);
    }
  }
}
