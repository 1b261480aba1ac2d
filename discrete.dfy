/**
 * arthoolbox.math.stats.discrete: the batch mean and variance of a list of
 * values. math.fsum is an exact sum here (values are `real`), and an empty
 * list makes the division by its length raise ZeroDivisionError.
 */
module Discrete {
  import opened Wrappers
  import RealSums

  /** The exception a division by zero raises. */
  datatype PyError = ZeroDivisionError

  /** mean: fsum(values) / len(values). */
  function Mean(values: seq<real>): (r: Result<real, PyError>)
    ensures r.Failure? <==> values == []
  {
    if values == [] then Failure(ZeroDivisionError)
    else Success(RealSums.Sum(values) / |values| as real)
  }

  /** Python's truth value of an optional number: None and 0 are false. */
  predicate Truthy(m: Option<real>) {
    m.Some? && m.value != 0.0
  }

  /**
   * variance: the mean of the squares minus the square of the mean, where
   * the mean is mean_computed if that is truthy and mean(values) otherwise.
   */
  function Variance(values: seq<real>, meanComputed: Option<real>): (r: Result<real, PyError>)
    ensures r.Failure? <==> values == []
  {
    var m :- if Truthy(meanComputed) then Success(meanComputed.value) else Mean(values);
    if values == [] then Failure(ZeroDivisionError)
    else Success(RealSums.SumSq(values) / |values| as real - Pow2(m))
  }

  /** math.pow(x, 2). */
  function Pow2(x: real): real {
    x * x
  }

  /** The mean of a non-empty list is its arithmetic mean. */
  lemma MeanIsArithmeticMean(values: seq<real>)
    requires values != []
    ensures Mean(values) == Success(RealSums.Mean(values))
    ensures |values| as real * Mean(values).value == RealSums.Sum(values)
  {
  }

  /** The mean of fifty 5s is 5. */
  lemma MeanOfFiftyFives()
    ensures Mean(RealSums.Constant(5.0, 50)) == Success(5.0)
  {
    RealSums.MeanOfConstant(5.0, 50);
  }

  /** The mean of range(1, 50) is 25. */
  lemma MeanOfOneToFortyNine()
    ensures Mean(RealSums.Range(1, 50)) == Success(25.0)
  {
    RealSums.MeanOfRange(50);
  }

  /** A mean_computed of None or 0 is ignored: the mean is recomputed. */
  lemma VarianceIgnoresFalsyMean(values: seq<real>, meanComputed: Option<real>)
    requires !Truthy(meanComputed)
    ensures Variance(values, meanComputed) == Variance(values, None)
  {
  }

  /** Passing the list's own mean gives the same result as letting variance compute it. */
  lemma VarianceWithOwnMean(values: seq<real>)
    requires values != []
    ensures Variance(values, Some(RealSums.Mean(values))) == Variance(values, None)
  {
    var m := RealSums.Mean(values);
    assert Mean(values) == Success(m);
    var r := RealSums.SumSq(values) / |values| as real - Pow2(m);
    assert Variance(values, None) == Success(r);
    if m != 0.0 {
      assert Truthy(Some(m));
      assert Variance(values, Some(m)) == Success(r);
    }
  }

  /** With the true mean, the variance is the mean squared deviation from it. */
  lemma VarianceIsMeanSquaredDeviation(values: seq<real>)
    requires values != []
    ensures Variance(values, None) == Success(RealSums.SumDevSq(values, RealSums.Mean(values)) / |values| as real)
  {
    VarianceOfSamples(values);
    MeanSquaredDeviationOfSums(values);
  }

  /** The mean squared deviation from the mean, in terms of the sums. */
  lemma MeanSquaredDeviationOfSums(values: seq<real>)
    requires values != []
    ensures RealSums.SumDevSq(values, RealSums.Mean(values)) / |values| as real
      == RealSums.SumSq(values) / |values| as real - Pow2(RealSums.Mean(values))
  {
    RealSums.SumIsCountTimesMean(values);
    DeviationOverCount(values, RealSums.Mean(values));
  }

  /** MeanSquaredDeviationOfSums for any c with n c = sum x. */
  lemma DeviationOverCount(values: seq<real>, c: real)
    ensures values != [] && RealSums.Balanced(values, c) ==>
      RealSums.SumDevSq(values, c) / |values| as real == RealSums.SumSq(values) / |values| as real - Pow2(c)
  {
    RealSums.SumDevSqAroundBalance(values, c);
    VarianceAlgebra(|values| as real, c, Pow2(c), RealSums.SumSq(values), RealSums.SumDevSq(values, c));
  }

  /** The variance of a non-empty list, with its own mean, is never negative. */
  lemma VarianceNonNegative(values: seq<real>)
    requires values != []
    ensures Variance(values, None).Success? && Variance(values, None).value >= 0.0
  {
    VarianceIsMeanSquaredDeviation(values);
    RealSums.SumDevSqNonNegative(values, RealSums.Mean(values));
    QuotientNonNegative(RealSums.SumDevSq(values, RealSums.Mean(values)), |values| as real);
  }

  /** variance without a mean given, in terms of the sums. */
  lemma VarianceOfSamples(values: seq<real>)
    requires values != []
    ensures Variance(values, None) == Success(RealSums.SumSq(values) / |values| as real - Pow2(RealSums.Mean(values)))
    ensures Pow2(RealSums.Mean(values)) == RealSums.Mean(values) * RealSums.Mean(values)
  {
    assert Mean(values) == Success(RealSums.Mean(values));
  }

  /** VarianceIsMeanSquaredDeviation with the sums as plain numbers. */
  lemma VarianceAlgebra(n: real, m: real, p: real, q: real, d: real)
    ensures n > 0.0 && p == m * m && d == q - n * m * m ==> d / n == q / n - p
  {
    if n > 0.0 && d == q - n * m * m {
      assert d / n == q / n - (n * m * m) / n;
      assert (n * m * m) / n == m * m;
    }
  }

  lemma QuotientNonNegative(d: real, n: real)
    requires d >= 0.0 && n > 0.0
    ensures d / n >= 0.0
  {
  }
}
