/** Integer facts shared by the placement and parsing models. */
module Arith {

  function Min(a: int, b: int): int {
    if a <= b then a else b
  }

  function Max(a: int, b: int): int {
    if a <= b then b else a
  }

  /** Rounding division of naturals, as `usize::div_ceil`. */
  function DivCeil(n: nat, d: nat): nat
    requires d > 0
  {
    (n + d - 1) / d
  }

  const U64: nat := 0x1_0000_0000_0000_0000

  lemma MulMonotone(a: int, b: int, k: int)
    requires a <= b && 0 <= k
    ensures a * k <= b * k
  {
    assert (b - a) * k >= 0;
  }

  lemma MulStrict(a: int, b: int, k: int)
    requires a < b && 0 < k
    ensures a * k < b * k
  {
    assert (b - a) * k > 0;
  }

  /** A quotient is the only integer whose multiple brackets the dividend. */
  lemma DivUnique(n: int, d: int, q: int, r: int)
    requires d > 0 && n == q * d + r && 0 <= r < d
    ensures n / d == q && n % d == r
  {
    var q', r' := n / d, n % d;
    assert n == q' * d + r';
    assert (q - q') * d == r' - r;
    if q < q' {
      MulMonotone(q - q', -1, d);
    } else if q > q' {
      MulMonotone(1, q - q', d);
    }
  }

  lemma DivExact(n: int, d: int)
    requires d > 0 && n % d == 0
    ensures n == (n / d) * d
  {
    assert n == (n / d) * d + n % d;
  }

  lemma MultipleMod(k: int, d: int)
    requires d > 0
    ensures (k * d) % d == 0 && (k * d) / d == k
  {
    DivUnique(k * d, d, k, 0);
  }

  /** The rounding quotient is the least multiple count reaching the dividend. */
  lemma DivCeilBounds(n: nat, d: nat)
    requires d > 0
    ensures n <= DivCeil(n, d) * d < n + d
  {
    var q := DivCeil(n, d);
    assert n + d - 1 == q * d + (n + d - 1) % d;
  }

  lemma DivCeilLeast(n: nat, d: nat, q: nat)
    requires d > 0
    ensures n <= q * d <==> DivCeil(n, d) <= q
  {
    DivCeilBounds(n, d);
    var c := DivCeil(n, d);
    if c <= q {
      MulMonotone(c, q, d);
    } else {
      MulMonotone(q, c - 1, d);
    }
  }

  /** Integer division respects a bracketing by multiples of the divisor. */
  lemma DivBracket(n: nat, d: nat, q: nat)
    requires d > 0
    ensures q * d <= n <==> q <= n / d
  {
    assert n == (n / d) * d + n % d;
    if q <= n / d {
      MulMonotone(q, n / d, d);
    } else {
      MulMonotone(n / d + 1, q, d);
    }
  }
}
