/**
 * arthoolbox::stats: the recurrent (Welford) update formulas for the mean,
 * the variance and the sum of squares, the RecurrentStatistics accumulator
 * built on them, and its text rendering.
 *
 * Samples, means and sums are `real`: the floating-point rounding the
 * formulas are chosen to limit is not modelled. The count is a `nat`.
 */
module Statistics {
  import opened Wrappers
  import RealSums
  import Decimal

  /** update_recurring_mean: M_n = M_{n-1} + (X_n - M_{n-1}) / n. */
  function UpdateRecurringMean(x: real, oldMean: real, n: nat): real
    requires n > 0
  {
    oldMean + (x - oldMean) / n as real
  }

  /** The new mean is the weighted average of n - 1 copies of the old mean and the sample. */
  lemma MeanIsWeightedAverage(x: real, oldMean: real, n: nat)
    requires n > 0
    ensures n as real * UpdateRecurringMean(x, oldMean, n) == (n - 1) as real * oldMean + x
  {
    var d := (x - oldMean) / n as real;
    assert n as real * d == x - oldMean;
  }

  /**
   * update_recurring_variance: V_n = V_{n-1} + ((X_n - M_n)(X_n - M_{n-1}) - V_{n-1}) / n.
   */
  function UpdateRecurringVariance(x: real, oldVariance: real, newMean: real, oldMean: real, n: nat): real
    requires n > 0
  {
    oldVariance + ((x - newMean) * (x - oldMean) - oldVariance) / n as real
  }

  /** n V_n = (n - 1) V_{n-1} + (X_n - M_n)(X_n - M_{n-1}). */
  lemma VarianceIsWeightedAverage(x: real, oldVariance: real, newMean: real, oldMean: real, n: nat)
    requires n > 0
    ensures n as real * UpdateRecurringVariance(x, oldVariance, newMean, oldMean, n)
      == (n - 1) as real * oldVariance + (x - newMean) * (x - oldMean)
  {
    var d := ((x - newMean) * (x - oldMean) - oldVariance) / n as real;
    assert n as real * d == (x - newMean) * (x - oldMean) - oldVariance;
  }

  /** update_recurring_sum_square: SUM_n = SUM_{n-1} + (X_n - M_n)(X_n - M_{n-1}). */
  function UpdateRecurringSumSquare(x: real, oldSumSquare: real, newMean: real, oldMean: real): real {
    oldSumSquare + (x - newMean) * (x - oldMean)
  }

  /**
   * When the old variance is the old sum of squares over n - 1, the updated
   * variance is the updated sum of squares over n: the two recurrences agree.
   */
  lemma VarianceTracksSumSquare(x: real, oldVariance: real, oldSumSquare: real, oldMean: real, count: nat, n: nat)
    requires n == count + 1 && count as real * oldVariance == oldSumSquare
    ensures var newMean := UpdateRecurringMean(x, oldMean, n);
      n as real * UpdateRecurringVariance(x, oldVariance, newMean, oldMean, n)
      == UpdateRecurringSumSquare(x, oldSumSquare, newMean, oldMean)
  {
    VarianceIsWeightedAverage(x, oldVariance, UpdateRecurringMean(x, oldMean, n), oldMean, n);
    assert (n - 1) as real == count as real;
  }

  /** The state of a RecurrentStatistics: N, the mean and the sum of squares. */
  datatype Stats = Stats(count: nat, mean: real, sumSquare: real)

  /**
   * updateWith: N grows by one, the new mean is computed with the new N, the
   * sum of squares is updated with the new and the old mean, then the mean
   * is replaced.
   */
  function UpdateSpec(s: Stats, x: real): (r: Stats)
    ensures r.count == s.count + 1
  {
    var n := s.count + 1;
    var newMean := UpdateRecurringMean(x, s.mean, n);
    Stats(n, newMean, UpdateRecurringSumSquare(x, s.sumSquare, newMean, s.mean))
  }

  /** updateWith applied to the samples xs in order. */
  function Fold(s: Stats, xs: seq<real>): (r: Stats)
    ensures r.count == s.count + |xs|
  {
    if xs == [] then s else UpdateSpec(Fold(s, xs[..|xs| - 1]), xs[|xs| - 1])
  }

  /**
   * The first update makes the mean the sample, whatever the initial mean,
   * and leaves the initial sum of squares as it was.
   */
  lemma FirstUpdate(initMean: real, initSumSquare: real, x: real)
    ensures UpdateSpec(Stats(0, initMean, initSumSquare), x) == Stats(1, x, initSumSquare)
  {
    assert UpdateRecurringMean(x, initMean, 1) == x;
  }

  /** The algebra of one Welford step on the sum of squared deviations; k' is k + 1. */
  lemma WelfordStep(k: real, k': real, m: real, x: real, m': real)
    requires k' == k + 1.0 && k' * m' == k * m + x
    ensures (x - m') * (x - m) - k * m * m == x * x - k' * m' * m'
  {
    assert x == k' * m' - k * m;
    assert (x - m') * (x - m) == x * x - x * m - x * m' + m * m';
    assert x * m == k' * m' * m - k * m * m;
    assert x * m' == k' * m' * m' - k * m * m';
  }

  /** The recurrent mean from the mean of all but the last sample is the mean of all samples. */
  lemma MeanStep(xs: seq<real>)
    requires |xs| >= 2
    ensures UpdateRecurringMean(xs[|xs| - 1], RealSums.Mean(xs[..|xs| - 1]), |xs|) == RealSums.Mean(xs)
  {
    var ys, x := xs[..|xs| - 1], xs[|xs| - 1];
    var m := RealSums.Mean(ys);
    var m' := UpdateRecurringMean(x, m, |xs|);
    assert xs == ys + [x];
    RealSums.SumSnoc(ys, x);
    RealSums.SumIsCountTimesMean(ys);
    MeanIsWeightedAverage(x, m, |xs|);
    assert (|xs| - 1) as real == |ys| as real;
    assert RealSums.Balanced(xs, m');
    RealSums.BalancedIsMean(xs, m');
  }

  /** The sum-of-squares recurrence turns the deviations of all but the last sample into those of all samples. */
  lemma SumSquareStep(xs: seq<real>)
    requires |xs| >= 2
    ensures var ys, x := xs[..|xs| - 1], xs[|xs| - 1];
      RealSums.SumDevSq(ys, RealSums.Mean(ys)) + (x - RealSums.Mean(xs)) * (x - RealSums.Mean(ys))
      == RealSums.SumDevSq(xs, RealSums.Mean(xs))
  {
    var ys, x := xs[..|xs| - 1], xs[|xs| - 1];
    assert xs == ys + [x];
    RealSums.SumIsCountTimesMean(ys);
    RealSums.SumIsCountTimesMean(xs);
    SumSquareStepAt(ys, x, RealSums.Mean(ys), RealSums.Mean(xs));
  }

  /** SumSquareStep for any points m and m' that balance ys and ys + [x]. */
  lemma SumSquareStepAt(ys: seq<real>, x: real, m: real, m': real)
    ensures RealSums.Balanced(ys, m) && RealSums.Balanced(ys + [x], m')
      ==> RealSums.SumDevSq(ys, m) + (x - m') * (x - m) == RealSums.SumDevSq(ys + [x], m')
  {
    if RealSums.Balanced(ys, m) && RealSums.Balanced(ys + [x], m') {
      var xs := ys + [x];
      var k, k' := |ys| as real, |xs| as real;
      var w := (x - m') * (x - m);
      calc {
        RealSums.SumDevSq(ys, m) + w;
        { RealSums.SumDevSqAroundBalance(ys, m); }
        RealSums.SumSq(ys) + (w - k * m * m);
        { WelfordOfBalance(ys, x, m, m'); }
        RealSums.SumSq(ys) + x * x - k' * m' * m';
        { RealSums.SumSqSnoc(ys, x); }
        RealSums.SumSq(xs) - k' * m' * m';
        { RealSums.SumDevSqAroundBalance(xs, m'); }
        RealSums.SumDevSq(xs, m');
      }
    }
  }

  /** WelfordStep for points m and m' that balance ys and ys + [x]. */
  lemma WelfordOfBalance(ys: seq<real>, x: real, m: real, m': real)
    ensures RealSums.Balanced(ys, m) && RealSums.Balanced(ys + [x], m')
      ==> (x - m') * (x - m) - |ys| as real * m * m == x * x - |ys + [x]| as real * m' * m'
  {
    if RealSums.Balanced(ys, m) && RealSums.Balanced(ys + [x], m') {
      RealSums.SumSnoc(ys, x);
      WelfordStep(|ys| as real, |ys + [x]| as real, m, x, m');
    }
  }

  /**
   * One update of a state that holds the mean of all but the last sample and
   * an offset plus their squared deviations yields the same for all samples.
   */
  lemma UpdateKeepsMeanAndSumSquare(offset: real, xs: seq<real>)
    requires |xs| >= 2
    ensures var ys := xs[..|xs| - 1];
      UpdateSpec(Stats(|ys|, RealSums.Mean(ys), offset + RealSums.SumDevSq(ys, RealSums.Mean(ys))), xs[|xs| - 1])
      == Stats(|xs|, RealSums.Mean(xs), offset + RealSums.SumDevSq(xs, RealSums.Mean(xs)))
  {
    MeanStep(xs);
    SumSquareStep(xs);
  }

  /**
   * From N = 0 with any initial mean and sum of squares, after the non-empty
   * samples xs: N = |xs|, the mean is the arithmetic mean of xs, and the sum
   * of squares is the initial one plus the sum of squared deviations from
   * that mean.
   */
  lemma {:induction false} FoldComputesMeanAndSumSquare(initMean: real, initSumSquare: real, xs: seq<real>)
    requires xs != []
    ensures Fold(Stats(0, initMean, initSumSquare), xs)
      == Stats(|xs|, RealSums.Mean(xs), initSumSquare + RealSums.SumDevSq(xs, RealSums.Mean(xs)))
  {
    var ys, x := xs[..|xs| - 1], xs[|xs| - 1];
    if ys == [] {
      FirstUpdate(initMean, initSumSquare, x);
      assert xs == [x];
      assert RealSums.Sum(xs) == x;
      assert RealSums.SumDevSq(xs, x) == 0.0;
    } else {
      FoldComputesMeanAndSumSquare(initMean, initSumSquare, ys);
      UpdateKeepsMeanAndSumSquare(initSumSquare, xs);
    }
  }

  /** From the default state the mean and sum of squares are exactly those of the samples. */
  lemma FoldFromDefault(xs: seq<real>)
    requires xs != []
    ensures Fold(Stats(0, 0.0, 0.0), xs) == Stats(|xs|, RealSums.Mean(xs), RealSums.SumDevSq(xs, RealSums.Mean(xs)))
  {
    FoldComputesMeanAndSumSquare(0.0, 0.0, xs);
  }

  /**
   * The mean and the variance updated side by side from 0 and 0, with
   * n = 1, 2, ... as the count, as the recurrent variance test does.
   */
  function MeanVarianceFold(xs: seq<real>): (real, real)
  {
    if xs == [] then (0.0, 0.0) else MeanVarianceStep(MeanVarianceFold(xs[..|xs| - 1]), xs[|xs| - 1], |xs|)
  }

  /** One side-by-side update of a (mean, variance) pair with count n. */
  function MeanVarianceStep(p: (real, real), x: real, n: nat): (real, real)
    requires n > 0
  {
    var m' := UpdateRecurringMean(x, p.0, n);
    (m', UpdateRecurringVariance(x, p.1, m', p.0, n))
  }

  /** A (mean, variance) pair agrees with a state: same mean, variance the sum of squares over N. */
  predicate Agrees(p: (real, real), st: Stats) {
    p.0 == st.mean && st.count as real * p.1 == st.sumSquare
  }

  /** A pair that agrees with a state before an update agrees with it after. */
  lemma MeanVarianceStepTracks(p: (real, real), st: Stats, x: real, n: nat)
    requires n == st.count + 1 && Agrees(p, st)
    ensures Agrees(MeanVarianceStep(p, x, n), UpdateSpec(st, x))
  {
    VarianceTracksSumSquare(x, p.1, st.sumSquare, p.0, st.count, n);
  }

  /**
   * The side-by-side recurrence keeps the same mean as updateWith from the
   * default state and a variance equal to its sum of squares over N.
   */
  lemma {:induction false} MeanVarianceFoldTracksStats(xs: seq<real>)
    ensures Agrees(MeanVarianceFold(xs), Fold(Stats(0, 0.0, 0.0), xs))
  {
    if xs != [] {
      var ys := xs[..|xs| - 1];
      MeanVarianceFoldTracksStats(ys);
      MeanVarianceStepTracks(MeanVarianceFold(ys), Fold(Stats(0, 0.0, 0.0), ys), xs[|xs| - 1], |xs|);
    }
  }

  /**
   * The recurrent variance of non-empty samples is their population
   * variance: the mean is theirs, and N times the variance is the sum of
   * squared deviations from it.
   */
  lemma MeanVarianceFoldIsPopulationVariance(xs: seq<real>)
    requires xs != []
    ensures Agrees(MeanVarianceFold(xs), Stats(|xs|, RealSums.Mean(xs), RealSums.SumDevSq(xs, RealSums.Mean(xs))))
  {
    MeanVarianceFoldTracksStats(xs);
    FoldFromDefault(xs);
  }

  /** The text shown instead of a variance that needs more samples. */
  const NotEnoughSamples := " -> Not enough samples yet"

  /** A labelled line: the value if it is defined, the placeholder otherwise. */
  function Line(caption: string, value: Option<real>, show: real -> string): string {
    caption + (match value case None => NotEnoughSamples case Some(v) => show(v))
  }

  /** The first line and the mean: "Stats [N = n]\nMean: m". */
  function Header(n: nat, mean: real, show: real -> string): string {
    "Stats [N = " + Decimal.NatToString(n) + "]\nMean: " + show(mean)
  }

  /** class RecurrentStatistics. */
  class RecurrentStatistics {
    var count: nat
    var mean: real
    var sumSquare: real

    ghost function Model(): Stats
      reads this
    {
      Stats(count, mean, sumSquare)
    }

    /** The default constructor: N = 0 and value-initialised mean and sum. */
    constructor ()
      ensures Model() == Stats(0, 0.0, 0.0)
    {
      count, mean, sumSquare := 0, 0.0, 0.0;
    }

    /** The constructor with an initial mean and sum of squares. */
    constructor WithInitial(initMean: real, initSumSquare: real)
      ensures Model() == Stats(0, initMean, initSumSquare)
    {
      count, mean, sumSquare := 0, initMean, initSumSquare;
    }

    /** reset: N back to 0 with the given mean and sum of squares. */
    method Reset(newMean: real, newSumSquare: real)
      modifies this
      ensures Model() == Stats(0, newMean, newSumSquare)
    {
      count, mean, sumSquare := 0, newMean, newSumSquare;
    }

    /** getNumberOfMeasurements. */
    function NumberOfMeasurements(): nat
      reads this
    {
      count
    }

    /** getMean. */
    function GetMean(): real
      reads this
    {
      mean
    }

    /** getVariance: needs one measurement; the sum of squares over N. */
    function Variance(): (v: real)
      reads this
      requires count != 0
      ensures count as real * v == sumSquare
    {
      sumSquare / count as real
    }

    /** getSampledVariance: needs two measurements; the sum of squares over N - 1. */
    function SampledVariance(): (v: real)
      reads this
      requires count > 1
      ensures (count - 1) as real * v == sumSquare
    {
      sumSquare / (count - 1) as real
    }

    /** updateWith. */
    method UpdateWith(x: real)
      modifies this
      ensures Model() == UpdateSpec(old(Model()), x)
    {
      count := count + 1;
      var newMean := UpdateRecurringMean(x, mean, count);
      sumSquare := UpdateRecurringSumSquare(x, sumSquare, newMean, mean);
      mean := newMean;
    }
  }

  /**
   * format: the header, then the variance and the sampled variance, each
   * shown exactly when its getter's requirement on N is met and replaced by
   * the placeholder otherwise. `show` renders a number.
   */
  method Format(stats: RecurrentStatistics, show: real -> string) returns (out: string)
    ensures var n := stats.count;
      out == Header(n, stats.mean, show)
        + Line("\nVar : ", if n >= 1 then Some(stats.Variance()) else None, show)
        + Line("\nSVar: ", if n >= 2 then Some(stats.SampledVariance()) else None, show)
  {
    var n := stats.NumberOfMeasurements();
    out := "Stats [N = " + Decimal.NatToString(n);
    out := out + "]\nMean: " + show(stats.GetMean());
    if n == 0 {
      out := out + "\nVar : " + NotEnoughSamples;
      out := out + "\nSVar: " + NotEnoughSamples;
    } else if n == 1 {
      out := out + "\nVar : " + show(stats.Variance());
      out := out + "\nSVar: " + NotEnoughSamples;
    } else {
      out := out + "\nVar : " + show(stats.Variance());
      out := out + "\nSVar: " + show(stats.SampledVariance());
    }
  }
}
