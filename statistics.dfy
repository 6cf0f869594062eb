/**
 * The per-time-step statistics of the spin-lattice kernel: running sums of
 * the recorded spin sums and of their squares over the trials, and the final
 * mean and variance (the value the standard deviation is the square root of),
 * over exact integers and reals.
 */
module TrialStatistics {
  import Arith

  /** Sum of a sequence of recorded values, accumulated in order. */
  function Sum(xs: seq<int>): int
  {
    if xs == [] then 0 else Sum(xs[..|xs| - 1]) + xs[|xs| - 1]
  }

  /** Sum of the squares of a sequence of recorded values, accumulated in order. */
  function SumOfSquares(xs: seq<int>): (s: int)
    ensures s >= 0
  {
    if xs == [] then 0 else SumOfSquares(xs[..|xs| - 1]) + xs[|xs| - 1] * xs[|xs| - 1]
  }

  /** Recording one more value adds it to the sum and its square to the sum of squares. */
  lemma SumSnoc(xs: seq<int>, v: int)
    ensures Sum(xs + [v]) == Sum(xs) + v
    ensures SumOfSquares(xs + [v]) == SumOfSquares(xs) + v * v
  {
    assert (xs + [v])[..|xs|] == xs;
  }

  /** Values bounded by `b` in absolute value have a sum bounded by `|xs| * b`. */
  lemma {:induction false} SumBounds(xs: seq<int>, b: int)
    requires forall r :: 0 <= r < |xs| ==> -b <= xs[r] <= b
    ensures -(|xs| * b) <= Sum(xs) <= |xs| * b
  {
    if xs != [] {
      SumBounds(xs[..|xs| - 1], b);
      assert |xs| * b == (|xs| - 1) * b + b;
    }
  }

  /** A value bounded by `b` in absolute value has a square of at most `b * b`. */
  lemma SquareAtMost(v: int, b: int)
    requires -b <= v <= b
    ensures v * v <= b * b
  {
    var a: nat := if v >= 0 then v else -v;
    assert v * v == a * a;
    Arith.MulMonotone(a, b, a);
    Arith.MulMonotone(a, b, b as nat);
  }

  /** Values bounded by `b` in absolute value have a sum of squares of at most `|xs| * b * b`. */
  lemma {:induction false} SumOfSquaresBound(xs: seq<int>, b: int)
    requires forall r :: 0 <= r < |xs| ==> -b <= xs[r] <= b
    ensures SumOfSquares(xs) <= |xs| * (b * b)
  {
    if xs != [] {
      var v, m := xs[|xs| - 1], b * b;
      SumOfSquaresBound(xs[..|xs| - 1], b);
      SquareAtMost(v, b);
      assert |xs| * m == (|xs| - 1) * m + m;
    }
  }

  /** For r > 0 and r*b >= a*a: r*c*c + b >= 2*a*c. */
  lemma CrossTerm(r: int, a: int, b: int, c: int)
    requires r > 0 && r * b >= a * a
    ensures r * c * c + b >= 2 * a * c
  {
    var p, q, d := r * (r * c * c), r * (a * c), r * c - a;
    SquareExpand(r, a, c);
    Distribute(r, r * c * c, b);
    Distribute(r, a * c, a * c);
    assert d * d >= 0;
    CancelFactor(r * c * c + b, a * c + a * c, r);
  }

  /** A positive common factor cancels from an inequality. */
  lemma CancelFactor(x: int, y: int, r: int)
    requires r > 0 && r * x >= r * y
    ensures x >= y
  {
  }

  /** `(r*c - a)^2 == r*(r*c*c) - 2*r*(a*c) + a*a`. */
  lemma SquareExpand(r: int, a: int, c: int)
    ensures (r * c - a) * (r * c - a) == r * (r * c * c) - 2 * (r * (a * c)) + a * a
  {
  }

  /** `r*(u + v) == r*u + r*v`. */
  lemma Distribute(r: int, u: int, v: int)
    ensures r * (u + v) == r * u + r * v
  {
  }

  lemma Expand(r: int, a: int, b: int, c: int)
    ensures (r + 1) * (b + c * c) - (a + c) * (a + c) == (r * b - a * a) + (r * c * c + b - 2 * a * c)
  {
  }

  /** Cauchy-Schwarz: `|xs| * SumOfSquares(xs) >= Sum(xs)^2`. */
  lemma {:induction false} CauchySchwarz(xs: seq<int>)
    ensures |xs| * SumOfSquares(xs) >= Sum(xs) * Sum(xs)
  {
    if xs != [] {
      var p := xs[..|xs| - 1];
      CauchySchwarz(p);
      var r, a, b, c := |p|, Sum(p), SumOfSquares(p), xs[|xs| - 1];
      assert Sum(xs) == a + c && SumOfSquares(xs) == b + c * c && |xs| == r + 1;
      if r == 0 {
        assert p == [];
      } else {
        CrossTerm(r, a, b, c);
      }
      Expand(r, a, b, c);
    }
  }

  /** Per-step statistics over exact reals: the means and the values under the square root. */
  datatype Statistics = Statistics(means: seq<real>, variances: seq<real>)

  /** A total divided by a count. */
  function Mean(total: int, count: nat): (m: real)
    requires count > 0
    ensures m * count as real == total as real
  {
    total as real / count as real
  }

  /**
   * The mean square less the squared mean: the value whose square root is
   * reported.  It is non-negative whenever the totals satisfy the
   * Cauchy-Schwarz bound for `count` values.
   */
  function Variance(total: int, totalSquares: int, count: nat): (v: real)
    requires count > 0
    ensures count * totalSquares >= total * total ==> v >= 0.0
  {
    SpreadNonNegative(total, totalSquares, count);
    Mean(totalSquares, count) - Mean(total, count) * Mean(total, count)
  }

  /**
   * The final statistics as ising_spin.hpp computes them: each per-step total
   * over the trials is divided by `maxTime`, not by the number of trials.
   */
  function FinalizeAsWritten(sums: seq<int>, sumSquares: seq<int>, maxTime: nat): (st: Statistics)
    requires |sums| == maxTime && |sumSquares| == maxTime
    ensures |st.means| == maxTime && |st.variances| == maxTime
    ensures forall i :: 0 <= i < maxTime ==> st.means[i] * maxTime as real == sums[i] as real
  {
    Statistics(
      seq(maxTime, i requires 0 <= i < maxTime => Mean(sums[i], maxTime)),
      seq(maxTime, i requires 0 <= i < maxTime => Variance(sums[i], sumSquares[i], maxTime)))
  }

  /**
   * The final statistics with a negative value under the square root treated
   * as zero: the means and the non-negative variances are those of
   * `FinalizeAsWritten`, and a negative variance is replaced by 0.
   */
  function FinalizeClamped(sums: seq<int>, sumSquares: seq<int>, maxTime: nat): (st: Statistics)
    requires |sums| == maxTime && |sumSquares| == maxTime
    ensures |st.means| == maxTime && |st.variances| == maxTime
    ensures st.means == FinalizeAsWritten(sums, sumSquares, maxTime).means
    ensures forall i :: 0 <= i < maxTime ==> st.variances[i] >= 0.0
    ensures forall i :: 0 <= i < maxTime && FinalizeAsWritten(sums, sumSquares, maxTime).variances[i] >= 0.0 ==>
              st.variances[i] == FinalizeAsWritten(sums, sumSquares, maxTime).variances[i]
    ensures forall i :: 0 <= i < maxTime && FinalizeAsWritten(sums, sumSquares, maxTime).variances[i] < 0.0 ==>
              st.variances[i] == 0.0
  {
    var w := FinalizeAsWritten(sums, sumSquares, maxTime);
    Statistics(
      w.means,
      seq(maxTime, i requires 0 <= i < maxTime => if w.variances[i] < 0.0 then 0.0 else w.variances[i]))
  }

  /**
   * The final statistics normalised by the number of trials: the mean of the
   * recorded spin sums and their variance over the trials.
   */
  function Finalize(sums: seq<int>, sumSquares: seq<int>, repeats: nat): (st: Statistics)
    requires repeats > 0 && |sumSquares| == |sums|
    ensures |st.means| == |sums| && |st.variances| == |sums|
    ensures forall i :: 0 <= i < |sums| ==> st.means[i] * repeats as real == sums[i] as real
  {
    Statistics(
      seq(|sums|, i requires 0 <= i < |sums| => Mean(sums[i], repeats)),
      seq(|sums|, i requires 0 <= i < |sums| => Variance(sums[i], sumSquares[i], repeats)))
  }

  /** Normalised by the number of trials, the variance of any recorded values is never negative. */
  lemma FinalizeVarianceNonNegative(obs: seq<int>, sums: seq<int>, sumSquares: seq<int>, i: nat)
    requires |obs| > 0 && |sumSquares| == |sums| && i < |sums|
    requires sums[i] == Sum(obs) && sumSquares[i] == SumOfSquares(obs)
    ensures Finalize(sums, sumSquares, |obs|).variances[i] >= 0.0
  {
    var a, b, r := Sum(obs), SumOfSquares(obs), |obs|;
    CauchySchwarz(obs);
    assert Finalize(sums, sumSquares, r).variances[i] == Variance(a, b, r);
  }

  /** Every trial recorded +1. */
  predicate AllOnes(obs: seq<int>)
  {
    forall r :: 0 <= r < |obs| ==> obs[r] == 1
  }

  /** Recording +1 in every trial makes both totals the number of trials. */
  lemma {:induction false} SumOfOnes(obs: seq<int>)
    requires AllOnes(obs)
    ensures Sum(obs) == |obs| && SumOfSquares(obs) == |obs|
  {
    if obs != [] {
      SumOfOnes(obs[..|obs| - 1]);
    }
  }

  /**
   * Dividing by `maxTime` instead of the number of trials: when more trials
   * than `maxTime` each record +1 at a time step, the value under the square
   * root at that step is negative, and its `sqrt` is not a number.
   */
  lemma NegativeVarianceAsWritten(obs: seq<int>, sums: seq<int>, sumSquares: seq<int>, maxTime: nat, i: nat)
    requires 0 < maxTime < |obs| && AllOnes(obs)
    requires |sums| == maxTime && |sumSquares| == maxTime && i < maxTime
    requires sums[i] == Sum(obs) && sumSquares[i] == SumOfSquares(obs)
    ensures FinalizeAsWritten(sums, sumSquares, maxTime).variances[i] < 0.0
  {
    SumOfOnes(obs);
    var k := |obs|;
    assert FinalizeAsWritten(sums, sumSquares, maxTime).variances[i] == Variance(k, k, maxTime);
    SpreadNegative(k, maxTime);
  }

  /** `k` ones averaged over fewer than `k` slots give a mean above 1, and then `m - m*m < 0`. */
  lemma SpreadNegative(k: nat, maxTime: nat)
    requires 0 < maxTime < k
    ensures Mean(k, maxTime) - Mean(k, maxTime) * Mean(k, maxTime) < 0.0
  {
    var m := Mean(k, maxTime);
    assert m > 1.0 by {
      assert m * maxTime as real == k as real > maxTime as real;
    }
    assert m * (m - 1.0) > 0.0;
    assert m - m * m == -(m * (m - 1.0));
  }

  /** Over the reals, `r*b >= a*a` with `r > 0` makes `b/r - (a/r)^2` non-negative. */
  lemma SpreadNonNegative(ia: int, ib: int, ir: int)
    requires ir > 0
    ensures ir * ib >= ia * ia ==> Mean(ib, ir) - Mean(ia, ir) * Mean(ia, ir) >= 0.0
  {
    if ir * ib >= ia * ia {
      RealSpread(ia, ib, ir);
    }
  }

  lemma RealSpread(ia: int, ib: int, ir: int)
    requires ir > 0 && ir * ib >= ia * ia
    ensures Mean(ib, ir) - Mean(ia, ir) * Mean(ia, ir) >= 0.0
  {
    var a, b, r := ia as real, ib as real, ir as real;
    assert r * b == (ir * ib) as real && a * a == (ia * ia) as real;
    var m := a / r;
    assert m * r == a;
    assert r * (r * (m * m)) == a * a;
    assert r * (b - r * (m * m)) >= 0.0;
    assert b - r * (m * m) >= 0.0;
    assert b / r - m * m == (b - r * (m * m)) / r;
  }
}
