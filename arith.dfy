/** Facts of integer arithmetic shared by the models. */
module Arith {
  /** Multiplying by a non-negative factor preserves order. */
  lemma MulMonotone(a: int, b: int, c: nat)
    requires a <= b
    ensures a * c <= b * c
  {
  }

  /** Two base-n digits `a`, `b` make a number below n*n. */
  lemma DigitBound(n: nat, a: nat, b: nat)
    requires a < n && b < n
    ensures a * n + b < n * n
  {
    MulMonotone(a, n - 1, n);
    assert (n - 1) * n == n * n - n;
  }

  /** Base-n digits are unique: `a*n + b == c*n + d` with `b, d < n` forces `a == c` and `b == d`. */
  lemma DigitsUnique(n: nat, a: nat, b: nat, c: nat, d: nat)
    requires b < n && d < n && a * n + b == c * n + d
    ensures a == c && b == d
  {
    if a < c {
      assert (a + 1) * n == a * n + n;
      MulMonotone(a + 1, c, n);
    } else if c < a {
      assert (c + 1) * n == c * n + n;
      MulMonotone(c + 1, a, n);
    }
  }

  /** Quotient and remainder are determined by any decomposition `z == q*n + r`. */
  lemma DivModUnique(z: int, n: nat, q: int, r: int)
    requires 0 <= r < n && z == q * n + r
    ensures z / n == q && z % n == r
  {
    var d := q - z / n;
    assert d * n == z % n - r;
    if d >= 1 {
      MulMonotone(1, d, n);
    } else if d <= -1 {
      MulMonotone(d, -1, n);
    }
  }
}
