/**
 * Unsigned machine-word operators on naturals: `x << k`, `x >> k`,
 * `x & ((1 << k) - 1)` and `a | b`, each defined one bit at a time.
 */
module Bits {

  function Pow2(n: nat): (r: nat)
    ensures r >= 1
  {
    if n == 0 then 1 else 2 * Pow2(n - 1)
  }

  lemma {:induction false} Pow2Monotonic(m: nat, n: nat)
    requires m <= n
    ensures Pow2(m) <= Pow2(n)
  {
    if m < n {
      Pow2Monotonic(m, n - 1);
    }
  }

  /** The integer floor of log2 n: the k with 2^k <= n < 2^(k+1). */
  function FloorLog2(n: nat): (k: nat)
    requires n >= 1
    ensures Pow2(k) <= n < Pow2(k + 1)
  {
    if n == 1 then 0 else 1 + FloorLog2(n / 2)
  }

  lemma FloorLog2Monotonic(m: nat, n: nat)
    requires 1 <= m <= n
    ensures FloorLog2(m) <= FloorLog2(n)
  {
    if FloorLog2(m) > FloorLog2(n) {
      Pow2Monotonic(FloorLog2(n) + 1, FloorLog2(m));
    }
  }

  /** `x << k`, on a word wide enough never to drop bits. */
  function ShiftLeft(x: nat, k: nat): nat {
    if k == 0 then x else 2 * ShiftLeft(x, k - 1)
  }

  /** `x >> k`. */
  function ShiftRight(x: nat, k: nat): nat {
    if k == 0 then x else ShiftRight(x / 2, k - 1)
  }

  /** `x & ((1 << k) - 1)`: the k least significant bits of x. */
  function LowBits(x: nat, k: nat): (r: nat)
    ensures r < Pow2(k)
  {
    if k == 0 then 0 else 2 * LowBits(x / 2, k - 1) + x % 2
  }

  /** `a | b`, from the least significant bit up. */
  function BitOr(a: nat, b: nat): nat
    decreases a + b
  {
    if a == 0 then b
    else if b == 0 then a
    else 2 * BitOr(a / 2, b / 2) + (if a % 2 == 1 || b % 2 == 1 then 1 else 0)
  }

  /** Shifting left by k bits multiplies by 2^k. */
  lemma {:induction false} ShiftLeftIsMul(x: nat, k: nat)
    ensures ShiftLeft(x, k) == x * Pow2(k)
  {
    if k > 0 {
      ShiftLeftIsMul(x, k - 1);
      assert x * (2 * Pow2(k - 1)) == 2 * (x * Pow2(k - 1));
    }
  }

  /** Shifting left by m and then by n bits is shifting left by s = m + n bits. */
  lemma {:induction false} ShiftLeftAdd(x: nat, m: nat, n: nat, s: nat)
    requires s == m + n
    ensures ShiftLeft(x, s) == ShiftLeft(ShiftLeft(x, m), n)
  {
    if n > 0 {
      ShiftLeftAdd(x, m, n - 1, s - 1);
    }
  }

  /** Shifting right by m and then by n bits is shifting right by s = m + n bits. */
  lemma {:induction false} ShiftRightAdd(x: nat, m: nat, n: nat, s: nat)
    requires s == m + n
    ensures ShiftRight(x, s) == ShiftRight(ShiftRight(x, m), n)
  {
    if m > 0 {
      ShiftRightAdd(x / 2, m - 1, n, s - 1);
    }
  }

  /** A value below 2^j shifted left by k, plus a value below 2^k, lies below 2^(j + k). */
  lemma {:induction false} ShiftLeftBound(high: nat, low: nat, j: nat, k: nat, s: nat)
    requires s == j + k && high < Pow2(j) && low < Pow2(k)
    ensures ShiftLeft(high, k) + low < Pow2(s)
  {
    if k > 0 {
      ShiftLeftBound(high, low / 2, j, k - 1, s - 1);
    }
  }

  /** A value below 2^s shifted right by k lies below 2^(s - k). */
  lemma {:induction false} ShiftRightBound(x: nat, m: nat, k: nat, s: nat)
    requires s == m + k && x < Pow2(s)
    ensures ShiftRight(x, k) < Pow2(m)
  {
    if k > 0 {
      ShiftRightBound(x / 2, m, k - 1, s - 1);
    }
  }

  /** A value that fits in k bits is its own k low bits. */
  lemma {:induction false} LowBitsOfSmall(x: nat, k: nat)
    requires x < Pow2(k)
    ensures LowBits(x, k) == x
  {
    if k > 0 {
      LowBitsOfSmall(x / 2, k - 1);
    }
  }

  /** A word is its high part shifted back into place plus its k low bits. */
  lemma {:induction false} Decompose(x: nat, k: nat)
    ensures x == ShiftLeft(ShiftRight(x, k), k) + LowBits(x, k)
  {
    if k > 0 {
      Decompose(x / 2, k - 1);
    }
  }

  /** With low below bit k, the word (high << k) + low splits back into high and low along bit k. */
  lemma {:induction false} SplitAt(high: nat, low: nat, k: nat)
    requires low < Pow2(k)
    ensures ShiftRight(ShiftLeft(high, k) + low, k) == high
    ensures LowBits(ShiftLeft(high, k) + low, k) == low
  {
    if k > 0 {
      SplitAt(high, low / 2, k - 1);
    }
  }

  /** With low below bit k, or-ing it into high << k is adding it. */
  lemma {:induction false} OrDisjoint(high: nat, low: nat, k: nat)
    requires low < Pow2(k)
    ensures BitOr(ShiftLeft(high, k), low) == ShiftLeft(high, k) + low
  {
    if k > 0 {
      OrDisjoint(high, low / 2, k - 1);
    }
  }

  /** Or-ing two doubled values doubles their or. */
  lemma OrDouble(a: nat, b: nat)
    ensures BitOr(2 * a, 2 * b) == 2 * BitOr(a, b)
  {
  }

  /** Or-ing two values shifted by the same k shifts their or. */
  lemma {:induction false} OrShifted(a: nat, b: nat, k: nat)
    ensures BitOr(ShiftLeft(a, k), ShiftLeft(b, k)) == ShiftLeft(BitOr(a, b), k)
  {
    if k > 0 {
      OrShifted(a, b, k - 1);
      OrDouble(ShiftLeft(a, k - 1), ShiftLeft(b, k - 1));
    }
  }

  /** The or of two k-bit values is a k-bit value. */
  lemma {:induction false} OrBound(a: nat, b: nat, k: nat)
    requires a < Pow2(k) && b < Pow2(k)
    ensures BitOr(a, b) < Pow2(k)
  {
    if a != 0 && b != 0 {
      OrBound(a / 2, b / 2, k - 1);
    }
  }
}
