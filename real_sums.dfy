/**
 * Sums over sequences of real numbers, shared by the statistics models:
 * the sum, the sum of squares, the sum of squared deviations from a point,
 * and the arithmetic mean.
 */
module RealSums {

  /** x0 + x1 + ... , added from the front. */
  function Sum(xs: seq<real>): real {
    if xs == [] then 0.0 else Sum(xs[..|xs| - 1]) + xs[|xs| - 1]
  }

  /** x0^2 + x1^2 + ... */
  function SumSq(xs: seq<real>): real {
    if xs == [] then 0.0 else SumSq(xs[..|xs| - 1]) + xs[|xs| - 1] * xs[|xs| - 1]
  }

  /** (x0 - c)^2 + (x1 - c)^2 + ... */
  function SumDevSq(xs: seq<real>, c: real): real {
    if xs == [] then 0.0 else SumDevSq(xs[..|xs| - 1], c) + (xs[|xs| - 1] - c) * (xs[|xs| - 1] - c)
  }

  /** The arithmetic mean of a non-empty sequence. */
  function Mean(xs: seq<real>): real
    requires xs != []
  {
    Sum(xs) / |xs| as real
  }

  /** The sum is the count times the mean. */
  lemma SumIsCountTimesMean(xs: seq<real>)
    requires xs != []
    ensures |xs| as real * Mean(xs) == Sum(xs)
    ensures Balanced(xs, Mean(xs))
  {
  }

  /** c balances xs: n c = sum x. */
  predicate Balanced(xs: seq<real>, c: real) {
    |xs| as real * c == Sum(xs)
  }

  /** The only point that balances a non-empty sequence is its mean. */
  lemma BalancedIsMean(xs: seq<real>, c: real)
    ensures xs != [] && Balanced(xs, c) ==> c == Mean(xs)
  {
    if xs != [] && Balanced(xs, c) {
      SumIsCountTimesMean(xs);
      CancelFactor(|xs| as real, c, Mean(xs));
    }
  }

  /** A non-zero factor cancels. */
  lemma CancelFactor(n: real, a: real, b: real)
    ensures n != 0.0 && n * a == n * b ==> a == b
  {
    if n != 0.0 && n * a == n * b {
      assert n * (a - b) == 0.0;
    }
  }

  lemma SumSnoc(xs: seq<real>, x: real)
    ensures Sum(xs + [x]) == Sum(xs) + x
  {
    assert (xs + [x])[..|xs|] == xs;
  }

  lemma SumSqSnoc(xs: seq<real>, x: real)
    ensures SumSq(xs + [x]) == SumSq(xs) + x * x
  {
    assert (xs + [x])[..|xs|] == xs;
  }

  lemma SumDevSqSnoc(xs: seq<real>, x: real, c: real)
    ensures SumDevSq(xs + [x], c) == SumDevSq(xs, c) + (x - c) * (x - c)
  {
    assert (xs + [x])[..|xs|] == xs;
  }

  /** Squared deviations expand into the plain sums: sum (x - c)^2 = sum x^2 - 2 c sum x + n c^2. */
  lemma {:induction false} SumDevSqExpand(xs: seq<real>, c: real)
    ensures SumDevSq(xs, c) == SumSq(xs) - 2.0 * c * Sum(xs) + |xs| as real * c * c
  {
    if xs != [] {
      var ys, x := xs[..|xs| - 1], xs[|xs| - 1];
      var m := |ys| as real;
      SumDevSqExpand(ys, c);
      assert xs == ys + [x];
      SumSnoc(ys, x);
      SumDevSqSnoc(ys, x, c);
      ExpandStep(SumDevSq(ys, c), SumSq(ys), Sum(ys), m, x, c);
    }
  }

  /** The algebra of one step of SumDevSqExpand. */
  lemma ExpandStep(d: real, q: real, s: real, m: real, x: real, c: real)
    requires d == q - 2.0 * c * s + m * c * c
    ensures d + (x - c) * (x - c) == (q + x * x) - 2.0 * c * (s + x) + (m + 1.0) * c * c
  {
    assert (x - c) * (x - c) == x * x - 2.0 * c * x + c * c;
    assert 2.0 * c * (s + x) == 2.0 * c * s + 2.0 * c * x;
    assert (m + 1.0) * c * c == m * c * c + c * c;
  }

  /** Around the mean: sum (x - mean)^2 = sum x^2 - n mean^2. */
  lemma SumDevSqAtMean(xs: seq<real>)
    requires xs != []
    ensures SumDevSq(xs, Mean(xs)) == SumSq(xs) - |xs| as real * Mean(xs) * Mean(xs)
  {
    SumIsCountTimesMean(xs);
    SumDevSqAroundBalance(xs, Mean(xs));
  }

  /** Around any c with n c = sum x: sum (x - c)^2 = sum x^2 - n c^2. */
  lemma SumDevSqAroundBalance(xs: seq<real>, c: real)
    ensures Balanced(xs, c) ==> SumDevSq(xs, c) == SumSq(xs) - |xs| as real * c * c
  {
    SumDevSqExpand(xs, c);
    AtMeanStep(SumDevSq(xs, c), SumSq(xs), Sum(xs), |xs| as real, c);
  }

  /** The algebra of SumDevSqAroundBalance: with s = n m, q - 2 m s + n m^2 = q - n m^2. */
  lemma AtMeanStep(d: real, q: real, s: real, n: real, m: real)
    ensures d == q - 2.0 * m * s + n * m * m && n * m == s ==> d == q - n * m * m
  {
    if n * m == s {
      assert 2.0 * m * s == 2.0 * n * m * m;
    }
  }

  /** A sum of squares is never negative. */
  lemma {:induction false} SumDevSqNonNegative(xs: seq<real>, c: real)
    ensures SumDevSq(xs, c) >= 0.0
  {
    if xs != [] {
      SumDevSqNonNegative(xs[..|xs| - 1], c);
      SquareNonNegative(xs[|xs| - 1] - c);
    }
  }

  lemma SquareNonNegative(d: real)
    ensures d * d >= 0.0
  {
    if d < 0.0 {
      assert d * d == (-d) * (-d);
    }
  }

  /** n copies of c. */
  function Constant(c: real, n: nat): (r: seq<real>)
    ensures |r| == n && forall i :: 0 <= i < n ==> r[i] == c
  {
    seq(n, _ => c)
  }

  lemma {:induction false} SumOfConstant(c: real, n: nat)
    ensures Sum(Constant(c, n)) == n as real * c
  {
    if n > 0 {
      assert Constant(c, n)[..n - 1] == Constant(c, n - 1);
      SumOfConstant(c, n - 1);
    }
  }

  /** The mean of n copies of c is c. */
  lemma MeanOfConstant(c: real, n: nat)
    requires n > 0
    ensures Mean(Constant(c, n)) == c
  {
    SumOfConstant(c, n);
  }

  /** lo, lo + 1, ..., hi - 1, as reals (Python's range). */
  function Range(lo: int, hi: int): (r: seq<real>)
    requires lo <= hi
    ensures |r| == hi - lo && forall i :: 0 <= i < hi - lo ==> r[i] == (lo + i) as real
  {
    seq(hi - lo, i => (lo + i) as real)
  }

  /** 1 + 2 + ... + (n - 1) = n (n - 1) / 2. */
  lemma {:induction false} SumOfRange(n: nat)
    requires n >= 1
    ensures Sum(Range(1, n)) == (n * (n - 1)) as real / 2.0
  {
    if n > 1 {
      assert Range(1, n)[..n - 2] == Range(1, n - 1);
      SumOfRange(n - 1);
      assert (n * (n - 1)) == (n - 1) * (n - 2) + 2 * (n - 1);
    }
  }

  /** The mean of 1, 2, ..., n - 1 is n / 2. */
  lemma MeanOfRange(n: nat)
    requires n >= 2
    ensures Mean(Range(1, n)) == n as real / 2.0
  {
    SumOfRange(n);
    assert (n * (n - 1)) as real == n as real * (n - 1) as real;
  }
}
