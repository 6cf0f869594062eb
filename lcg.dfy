/**
 * The 32-bit linear congruential generator that both the spin-lattice kernel
 * (`lcg`) and the random-walk kernel (`step`) use, in wrapping unsigned 32-bit
 * arithmetic, together with the facts that let a worker jump the cursor ahead
 * to any position of the draw sequence.
 */
module Rng {
  /** Unsigned 32-bit arithmetic wraps modulo this value. */
  const Modulus: int := 0x1_0000_0000
  const Multiplier: int := 1664525
  const Increment: int := 1013904223

  /** A value of C++ type `uint32_t`. */
  type u32 = x: int | 0 <= x < 0x1_0000_0000

  /**
   * One draw: `x*1664525+1013904223`, wrapping modulo 2^32.  Multiplier and
   * increment are odd, so the lowest bit of the cursor alternates.
   */
  function Lcg(x: u32): (r: u32)
    ensures r % 2 != x % 2
  {
    var y := x * Multiplier + Increment;
    assert y % 2 != x % 2 by {
      assert y == 2 * (x * 832262 + 506952111) + x + 1;
    }
    ModEven(y);
    y % Modulus
  }

  /** Reducing modulo 2^32 keeps the lowest bit. */
  lemma ModEven(y: nat)
    ensures (y % Modulus) % 2 == y % 2
  {
    assert y == 2 * (0x8000_0000 * (y / Modulus)) + y % Modulus;
  }

  /** The cursor after `k` draws starting from `x`. */
  function LcgPow(x: u32, k: nat): u32
  {
    if k == 0 then x else Lcg(LcgPow(x, k - 1))
  }

  /** One more draw advances the cursor by one position. */
  lemma LcgPowNext(x: u32, k: nat)
    ensures LcgPow(x, k + 1) == Lcg(LcgPow(x, k))
  {
  }

  /** Drawing `a` times and then `b` times is drawing `a + b` times. */
  lemma {:induction false} LcgPowAdd(x: u32, a: nat, b: nat)
    ensures LcgPow(LcgPow(x, a), b) == LcgPow(x, a + b)
  {
    if b > 0 {
      LcgPowAdd(x, a, b - 1);
    }
  }

  /** The `m` draws made one after the other starting from cursor `x`. */
  function Draws(x: u32, m: nat): (d: seq<u32>)
    ensures |d| == m
    decreases m
  {
    if m == 0 then [] else Draws(x, m - 1) + [LcgPow(x, m - 1)]
  }

  /** Draw number `k` (from 0) is the cursor after `k` draws. */
  lemma {:induction false} DrawsAt(x: u32, m: nat, k: nat)
    requires k < m
    ensures Draws(x, m)[k] == LcgPow(x, k)
    decreases m
  {
    if k < m - 1 {
      DrawsAt(x, m - 1, k);
    }
  }

  /** Multiplier of the affine map that `k` draws compose to. */
  function JumpMul(k: nat): u32
  {
    if k == 0 then 1 else (JumpMul(k - 1) * Multiplier) % Modulus
  }

  /** Offset of the affine map that `k` draws compose to. */
  function JumpAdd(k: nat): u32
  {
    if k == 0 then 0 else (JumpAdd(k - 1) * Multiplier + Increment) % Modulus
  }

  /**
   * Jump-ahead: `k` draws are one affine map modulo 2^32, so the cursor at any
   * position of the sequence is computable without replaying the draws before it.
   */
  lemma {:induction false} LcgJumpAhead(x: u32, k: nat)
    ensures LcgPow(x, k) == (JumpMul(k) * x + JumpAdd(k)) % Modulus
  {
    if k > 0 {
      LcgJumpAhead(x, k - 1);
      JumpStep(x, JumpMul(k - 1), JumpAdd(k - 1));
    }
  }

  /** One draw after the affine map `(m, c)` is the affine map `(m*a, c*a + b)`, all modulo 2^32. */
  lemma JumpStep(x: u32, m: int, c: int)
    ensures Lcg((m * x + c) % Modulus)
            == ((m * Multiplier) % Modulus * x + (c * Multiplier + Increment) % Modulus) % Modulus
  {
    var v := m * x + c;
    calc {
      Lcg(v % Modulus);
      (v % Modulus * Multiplier + Increment) % Modulus;
      { ModMulAdd(v, Multiplier, Increment); }
      (v * Multiplier + Increment) % Modulus;
      { assert v * Multiplier + Increment == (m * Multiplier) * x + (c * Multiplier + Increment); }
      ((m * Multiplier) * x + (c * Multiplier + Increment)) % Modulus;
      { ModMulAdd(m * Multiplier, x, c * Multiplier + Increment);
        ModAddLeft((m * Multiplier) % Modulus * x, c * Multiplier + Increment); }
      ((m * Multiplier) % Modulus * x + (c * Multiplier + Increment) % Modulus) % Modulus;
    }
  }

  /** Division by the modulus has a unique quotient and remainder. */
  lemma ModUnique(z: int, q: int, r: int)
    requires 0 <= r < Modulus && z == q * Modulus + r
    ensures z % Modulus == r
  {
  }

  /** Adding a multiple of the modulus does not change the remainder. */
  lemma ModShift(k: int, y: int)
    ensures (k * Modulus + y) % Modulus == y % Modulus
  {
    ModUnique(k * Modulus + y, k + y / Modulus, y % Modulus);
  }

  /** Reducing a factor first does not change the remainder of a product plus offset. */
  lemma ModMulAdd(v: int, a: int, c: int)
    ensures (v % Modulus * a + c) % Modulus == (v * a + c) % Modulus
  {
    var q, r := v / Modulus, v % Modulus;
    assert v * a + c == (q * a) * Modulus + (r * a + c);
    ModShift(q * a, r * a + c);
  }

  /** Reducing an addend first does not change the remainder of a sum. */
  lemma ModAddLeft(u: int, c: int)
    ensures (u + c % Modulus) % Modulus == (u + c) % Modulus
  {
    ModShift(c / Modulus, u + c % Modulus);
  }
}
