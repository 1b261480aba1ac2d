/**
 * arthoolbox.math.statistics (Python): the recurrent mean, variance and sum
 * of squares updates. Numbers are `real`; the count is a Python int, and
 * dividing by a zero count raises ZeroDivisionError.
 */
module PyStatistics {
  import opened Wrappers
  import RealSums
  import Statistics

  /** The exception a division by zero raises. */
  datatype PyError = ZeroDivisionError

  /** update_mean: M_n = M_{n-1} + (X_n - M_{n-1}) / n; raises on n = 0. */
  function UpdateMean(newData: real, oldMean: real, numData: int): (r: Result<real, PyError>)
    ensures r.Failure? <==> numData == 0
  {
    if numData == 0 then Failure(ZeroDivisionError)
    else Success(oldMean + (newData - oldMean) / numData as real)
  }

  /** update_variance: V_n = V_{n-1} + ((X_n - M_{n-1})(X_n - M_n) - V_{n-1}) / n; raises on n = 0. */
  function UpdateVariance(newData: real, oldVariance: real, newMean: real, oldMean: real, numData: int): (r: Result<real, PyError>)
    ensures r.Failure? <==> numData == 0
  {
    if numData == 0 then Failure(ZeroDivisionError)
    else Success(oldVariance + ((newData - oldMean) * (newData - newMean) - oldVariance) / numData as real)
  }

  /** update_sum_squares: SUM_n = SUM_{n-1} + (X_n - M_{n-1})(X_n - M_n). */
  function UpdateSumSquares(newData: real, oldSumSquares: real, newMean: real, oldMean: real): real {
    oldSumSquares + (newData - oldMean) * (newData - newMean)
  }

  /** With one measurement the mean is that measurement. */
  lemma UpdateMeanOfOne(newData: real, oldMean: real)
    ensures UpdateMean(newData, oldMean, 1) == Success(newData)
  {
  }

  /** For a positive count update_mean is the C++ update_recurring_mean. */
  lemma UpdateMeanMatchesRecurringMean(newData: real, oldMean: real, numData: nat)
    requires numData > 0
    ensures UpdateMean(newData, oldMean, numData) == Success(Statistics.UpdateRecurringMean(newData, oldMean, numData))
  {
  }

  /** For a positive count update_variance is the C++ update_recurring_variance: the factors commute. */
  lemma UpdateVarianceMatchesRecurringVariance(newData: real, oldVariance: real, newMean: real, oldMean: real, numData: nat)
    requires numData > 0
    ensures UpdateVariance(newData, oldVariance, newMean, oldMean, numData)
      == Success(Statistics.UpdateRecurringVariance(newData, oldVariance, newMean, oldMean, numData))
  {
    assert (newData - oldMean) * (newData - newMean) == (newData - newMean) * (newData - oldMean);
  }

  /** update_sum_squares is the C++ update_recurring_sum_square: the factors commute. */
  lemma UpdateSumSquaresMatchesRecurringSumSquare(newData: real, oldSumSquares: real, newMean: real, oldMean: real)
    ensures UpdateSumSquares(newData, oldSumSquares, newMean, oldMean)
      == Statistics.UpdateRecurringSumSquare(newData, oldSumSquares, newMean, oldMean)
  {
    assert (newData - oldMean) * (newData - newMean) == (newData - newMean) * (newData - oldMean);
  }

  /**
   * The mean test's loop: starting from 0, update_mean is applied to the
   * samples in order, the sample at index i with num_data = i + offset.
   */
  function MeanLoop(xs: seq<real>, offset: int): Result<real, PyError> {
    if xs == [] then Success(0.0)
    else
      var m :- MeanLoop(xs[..|xs| - 1], offset);
      UpdateMean(xs[|xs| - 1], m, |xs| - 1 + offset)
  }

  /** As written (num_data = i), the loop raises on the first sample of any non-empty data. */
  lemma {:induction false} MeanLoopAsWrittenRaises(xs: seq<real>)
    requires xs != []
    ensures MeanLoop(xs, 0) == Failure(ZeroDivisionError)
  {
    if |xs| > 1 {
      MeanLoopAsWrittenRaises(xs[..|xs| - 1]);
    }
  }

  /** With num_data = i + 1 the loop follows RecurrentStatistics' mean from the default state. */
  lemma {:induction false} MeanLoopFollowsRecurrentStatistics(xs: seq<real>)
    ensures MeanLoop(xs, 1) == Success(Statistics.Fold(Statistics.Stats(0, 0.0, 0.0), xs).mean)
  {
    if xs != [] {
      var ys := xs[..|xs| - 1];
      MeanLoopFollowsRecurrentStatistics(ys);
      UpdateMeanMatchesRecurringMean(xs[|xs| - 1], Statistics.Fold(Statistics.Stats(0, 0.0, 0.0), ys).mean, |xs|);
    }
  }

  /** With num_data = i + 1, after each sample the loop holds the arithmetic mean so far. */
  lemma MeanLoopComputesMean(xs: seq<real>)
    requires xs != []
    ensures MeanLoop(xs, 1) == Success(RealSums.Mean(xs))
  {
    MeanLoopFollowsRecurrentStatistics(xs);
    Statistics.FoldFromDefault(xs);
  }
}
