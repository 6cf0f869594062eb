/**
 * Conversion of a non-negative integer to IEEE-754 single precision (24-bit
 * significand, round to nearest, ties to even), as C++ performs it when a
 * `uint32_t` is assigned to a `float` or compared with one.  A converted
 * `uint32_t` never exceeds 2^32, so no exponent limit applies and the value of
 * the float is again an integer.
 *
 * Rounding is defined the way hardware does it: shift the value right one bit
 * at a time until 25 bits are left, remembering whether any 1 bit was shifted
 * out (the sticky bit); the last remaining bit is the guard bit, and the
 * 24-bit quotient is rounded up when the guard bit is set and either the
 * sticky bit is set or the quotient is odd.
 */
module Float32 {
  import opened Arith

  /** Values below 2^24 are exactly representable. */
  const Significand: nat := 0x100_0000

  /**
   * The integer value of the `float` nearest to `x`, ties to an even
   * significand: exact below 2^24, and at least 2^24 from there on.
   */
  function RoundToFloat(x: nat): (r: nat)
    ensures x < Significand ==> r == x
    ensures x >= Significand ==> r >= Significand
  {
    if x < Significand then x
    else
      RoundShiftedLower(x, false);
      RoundShifted(x, false)
  }

  /**
   * Rounds `x + e`, where `e` is 0 when `sticky` is false and lies strictly
   * between 0 and 1 otherwise, to 24 significant bits.
   */
  function RoundShifted(x: nat, sticky: bool): nat
    requires x >= Significand
    decreases x
  {
    if x < 2 * Significand then
      var q, guard := x / 2, x % 2;
      2 * (if guard == 1 && (sticky || q % 2 == 1) then q + 1 else q)
    else
      2 * RoundShifted(x / 2, sticky || x % 2 == 1)
  }

  /** Weight of the last significand bit of a `float` in the binade of `x`. */
  function Unit(x: nat): (u: nat)
    ensures u >= 1
    decreases x
  {
    if x < Significand then 1 else 2 * Unit(x / 2)
  }

  /** Above 2^24 the rounded value is again at least 2^24. */
  lemma {:induction false} RoundShiftedLower(x: nat, sticky: bool)
    requires x >= Significand
    ensures RoundShifted(x, sticky) >= Significand
    ensures x >= 2 * Significand ==> RoundShifted(x, sticky) >= 2 * Significand
    decreases x
  {
    if x >= 2 * Significand {
      RoundShiftedLower(x / 2, sticky || x % 2 == 1);
    }
  }

  /** Conversion within one binade never leaves it: values below 2^25 round to at most 2^25. */
  lemma RoundShiftedUpper(x: nat, sticky: bool)
    requires Significand <= x < 2 * Significand
    ensures RoundShifted(x, sticky) <= 2 * Significand
  {
  }

  /**
   * Rounding is to nearest: the result is a multiple of the unit of the binade
   * of `x`, at most half a unit away from `x`, and strictly less than half a
   * unit below `x` when the sticky bit says the exact value lies above `x`.
   */
  lemma {:induction false} RoundShiftedNearest(x: nat, sticky: bool)
    requires x >= Significand
    ensures Unit(x) >= 2
    ensures RoundShifted(x, sticky) % Unit(x) == 0
    ensures RoundShifted(x, sticky) >= x ==> RoundShifted(x, sticky) - x <= Unit(x) / 2
    ensures RoundShifted(x, sticky) <= x ==> x - RoundShifted(x, sticky) <= Unit(x) / 2
    ensures RoundShifted(x, sticky) <= x && sticky ==> x - RoundShifted(x, sticky) < Unit(x) / 2
    decreases x
  {
    var r := RoundShifted(x, sticky);
    if x < 2 * Significand {
      assert Unit(x / 2) == 1;
    } else {
      var h, s' := x / 2, sticky || x % 2 == 1;
      RoundShiftedNearest(h, s');
      var r', u' := RoundShifted(h, s'), Unit(h);
      assert r == 2 * r' && Unit(x) == 2 * u';
      DoubleMultiple(r', u');
    }
  }

  /** Twice a multiple of `u` is a multiple of `2*u`. */
  lemma DoubleMultiple(r: nat, u: nat)
    requires u >= 1 && r % u == 0
    ensures (2 * r) % (2 * u) == 0
  {
    var k := r / u;
    assert r == k * u;
    assert 2 * r == k * (2 * u);
    DivModUnique(2 * r, 2 * u, k, 0);
  }

  /** The rounded value of `x`, exact below 2^24, is a multiple of the unit within half a unit of `x`. */
  lemma RoundToFloatNearest(x: nat)
    ensures RoundToFloat(x) % Unit(x) == 0
    ensures RoundToFloat(x) >= x ==> RoundToFloat(x) - x <= Unit(x) / 2
    ensures RoundToFloat(x) <= x ==> x - RoundToFloat(x) <= Unit(x) / 2
  {
    if x >= Significand {
      RoundShiftedNearest(x, false);
    }
  }

  /**
   * Rounding preserves order: `x <= y` rounds to `x' <= y'`, where a set sticky
   * bit counts as a value above the unset one.
   */
  lemma {:induction false} RoundShiftedMonotone(x: nat, sx: bool, y: nat, sy: bool)
    requires Significand <= x <= y && (x == y && sx ==> sy)
    ensures RoundShifted(x, sx) <= RoundShifted(y, sy)
    decreases y
  {
    if y < 2 * Significand {
      assert x / 2 <= y / 2;
    } else if x < 2 * Significand {
      RoundShiftedUpper(x, sx);
      RoundShiftedLower(y, sy);
    } else {
      RoundShiftedMonotone(x / 2, sx || x % 2 == 1, y / 2, sy || y % 2 == 1);
    }
  }

  /** Conversion to `float` preserves the order of its arguments (not strictness). */
  lemma RoundMonotone(x: nat, y: nat)
    requires x <= y
    ensures RoundToFloat(x) <= RoundToFloat(y)
  {
    if x >= Significand {
      RoundShiftedMonotone(x, false, y, false);
    }
  }
}
