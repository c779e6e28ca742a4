/** Facts about multiplication and division of naturals that the solver does not find unaided. */
module Arith {

  /** a <= b implies a * c <= b * c for a non-negative factor c. */
  lemma MulMonotonic(a: int, b: int, c: nat)
    requires a <= b
    ensures a * c <= b * c
  {
    assert b * c - a * c == (b - a) * c;
  }

  /** a < c implies a * b + b <= c * b for a non-negative factor b. */
  lemma MulStrictMonotonic(a: int, c: int, b: nat)
    requires a < c
    ensures a * b + b <= c * b
  {
    MulMonotonic(a + 1, c, b);
    assert (a + 1) * b == a * b + b;
  }

  /** The quotient of n by d is the largest q with q * d <= n. */
  lemma FloorDivBounds(n: nat, d: nat)
    requires d >= 1
    ensures (n / d) * d <= n < (n / d) * d + d
  {
  }

  /** Quotient and remainder of n by d are the unique q, r with n == q * d + r and 0 <= r < d. */
  lemma DivModUnique(n: int, d: int, q: int, r: int)
    requires d > 0 && 0 <= r < d && n == q * d + r
    ensures n / d == q && n % d == r
  {
    var q', r' := n / d, n % d;
    assert (q - q') * d == r' - r;
    if q - q' >= 1 {
      MulMonotonic(1, q - q', d);
    } else if q - q' <= -1 {
      MulMonotonic(q - q', -1, d);
    }
  }

  /** n / d never exceeds n for a positive divisor d. */
  lemma DivAtMost(n: nat, d: nat)
    requires d >= 1
    ensures 0 <= n / d <= n
  {
    MulMonotonic(1, d, n / d);
  }

  /** Division by a positive divisor is non-decreasing in the dividend. */
  lemma DivMonotonic(m: nat, n: nat, d: nat)
    requires d >= 1 && m <= n
    ensures m / d <= n / d
  {
    if m / d > n / d {
      MulMonotonic(n / d + 1, m / d, d);
    }
  }
}
