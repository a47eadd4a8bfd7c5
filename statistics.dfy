/**
 * The two-pass population standard deviation of standard_deviation in
 * main_parallel.c. Samples are reals; the square root is a parameter
 * (sqrt: real -> real) standing for the C library's sqrt.
 */
module Statistics {

  /** Sum of the samples, accumulated front to back as the first loop does. */
  function Sum(s: seq<real>): real
  {
    if s == [] then 0.0 else Sum(s[..|s| - 1]) + s[|s| - 1]
  }

  /** Arithmetic mean of a non-empty buffer. */
  function Mean(s: seq<real>): real
    requires |s| > 0
  {
    Sum(s) / |s| as real
  }

  /** Sum of squared deviations from mean, accumulated front to back as the second loop does. */
  function SumSqDev(s: seq<real>, mean: real): real
  {
    if s == [] then 0.0
    else SumSqDev(s[..|s| - 1], mean) + (s[|s| - 1] - mean) * (s[|s| - 1] - mean)
  }

  /** Population variance: the argument standard_deviation hands to sqrt. */
  function Variance(s: seq<real>): real
    requires |s| > 0
  {
    SumSqDev(s, Mean(s)) / |s| as real
  }

  /** Population standard deviation. */
  function StdDev(s: seq<real>, sqrt: real -> real): real
    requires |s| > 0
  {
    sqrt(Variance(s))
  }

  /** Every sample moved by the same offset. */
  function Shift(s: seq<real>, offset: real): (t: seq<real>)
    ensures |t| == |s|
    ensures forall i :: 0 <= i < |s| ==> t[i] == s[i] + offset
  {
    seq(|s|, i requires 0 <= i < |s| => s[i] + offset)
  }

  /** One step of the first loop: the prefix sum grows by the next sample. */
  lemma SumOfPrefix(s: seq<real>, k: int)
    requires 0 <= k < |s|
    ensures Sum(s[..k + 1]) == Sum(s[..k]) + s[k]
  {
    assert s[..k + 1][..k] == s[..k];
  }

  /** One step of the second loop: the prefix sum of squared deviations grows by the next one. */
  lemma SumSqDevOfPrefix(s: seq<real>, k: int, mean: real)
    requires 0 <= k < |s|
    ensures SumSqDev(s[..k + 1], mean) == SumSqDev(s[..k], mean) + (s[k] - mean) * (s[k] - mean)
  {
    assert s[..k + 1][..k] == s[..k];
  }

  /**
   * standard_deviation: the mean of the first `length` samples of input, then
   * the sum of their squared deviations, then sqrt of that sum over length.
   */
  method StandardDeviation(input: array<real>, length: int, sqrt: real -> real) returns (result: real)
    requires 1 <= length <= input.Length
    ensures result == StdDev(input[..length], sqrt)
  {
    ghost var samples := input[..length];
    var mean := 0.0;
    var sumDeviation := 0.0;
    var k := 0;
    while k < length
      invariant 0 <= k <= length
      invariant mean == Sum(samples[..k])
    {
      SumOfPrefix(samples, k);
      mean := mean + input[k];
      k := k + 1;
    }
    assert samples[..k] == samples;
    mean := mean / length as real;
    assert mean == Mean(samples);
    k := 0;
    while k < length
      invariant 0 <= k <= length
      invariant sumDeviation == SumSqDev(samples[..k], mean)
    {
      SumSqDevOfPrefix(samples, k, mean);
      var x := input[k];
      sumDeviation := sumDeviation + (x - mean) * (x - mean);
      k := k + 1;
    }
    assert samples[..k] == samples;
    result := sqrt(sumDeviation / length as real);
  }

  /** A sum of squares is never negative. */
  lemma {:induction false} SumSqDevNonNegative(s: seq<real>, mean: real)
    ensures SumSqDev(s, mean) >= 0.0
  {
    if s != [] {
      SumSqDevNonNegative(s[..|s| - 1], mean);
      var d := s[|s| - 1] - mean;
      if d < 0.0 {
        assert d * d == (-d) * (-d);
      }
    }
  }

  /** So sqrt is only ever applied to a non-negative variance. */
  lemma VarianceNonNegative(s: seq<real>)
    requires |s| > 0
    ensures Variance(s) >= 0.0
  {
    SumSqDevNonNegative(s, Mean(s));
  }

  /** The sum of a buffer holding one value everywhere. */
  lemma {:induction false} SumConstant(s: seq<real>, x: real)
    requires forall i :: 0 <= i < |s| ==> s[i] == x
    ensures Sum(s) == |s| as real * x
  {
    if s != [] {
      SumConstant(s[..|s| - 1], x);
    }
  }

  /** Squared deviations of a constant buffer from any centre. */
  lemma {:induction false} SumSqDevConstant(s: seq<real>, x: real, mean: real)
    requires forall i :: 0 <= i < |s| ==> s[i] == x
    ensures SumSqDev(s, mean) == |s| as real * ((x - mean) * (x - mean))
  {
    if s != [] {
      SumSqDevConstant(s[..|s| - 1], x, mean);
    }
  }

  /** A constant buffer has its value as mean and no deviation: sqrt is applied to 0. */
  lemma ConstantHasZeroVariance(s: seq<real>, x: real, sqrt: real -> real)
    requires |s| > 0
    requires forall i :: 0 <= i < |s| ==> s[i] == x
    ensures Mean(s) == x
    ensures SumSqDev(s, Mean(s)) == 0.0
    ensures StdDev(s, sqrt) == sqrt(0.0)
  {
    SumConstant(s, x);
    SumSqDevConstant(s, x, x);
  }

  /** Moving every sample by offset moves the sum by |s| times offset. */
  lemma {:induction false} SumShift(s: seq<real>, offset: real)
    ensures Sum(Shift(s, offset)) == Sum(s) + |s| as real * offset
  {
    if s != [] {
      var n := |s|;
      assert Shift(s, offset)[..n - 1] == Shift(s[..n - 1], offset);
      SumShift(s[..n - 1], offset);
    }
  }

  /** Moving every sample and the centre by the same offset keeps every deviation. */
  lemma {:induction false} SumSqDevShift(s: seq<real>, mean: real, offset: real)
    ensures SumSqDev(Shift(s, offset), mean + offset) == SumSqDev(s, mean)
  {
    if s != [] {
      var n := |s|;
      assert Shift(s, offset)[..n - 1] == Shift(s[..n - 1], offset);
      SumSqDevShift(s[..n - 1], mean, offset);
    }
  }

  /** The mean follows a common offset of the samples. */
  lemma MeanShift(s: seq<real>, offset: real)
    requires |s| > 0
    ensures Mean(Shift(s, offset)) == Mean(s) + offset
  {
    SumShift(s, offset);
    var n := |s| as real;
    calc {
      Mean(Shift(s, offset));
      (Sum(s) + n * offset) / n;
      Sum(s) / n + offset;
    }
  }

  /** The standard deviation does not see a common offset of the samples. */
  lemma StdDevShiftInvariant(s: seq<real>, offset: real, sqrt: real -> real)
    requires |s| > 0
    ensures StdDev(Shift(s, offset), sqrt) == StdDev(s, sqrt)
  {
    MeanShift(s, offset);
    SumSqDevShift(s, Mean(s), offset);
  }

  /** Deviations from the mean cancel: the first pass centres the second. */
  lemma DeviationsSumToZero(s: seq<real>)
    requires |s| > 0
    ensures Sum(Shift(s, -Mean(s))) == 0.0
  {
    SumShift(s, -Mean(s));
  }

  /** Hint for the real-division steps of MeanAlgebra, OutlierAlgebra and DivTwice. */
  lemma DivOfProduct(a: real, n: real)
    requires n != 0.0
    ensures (a * n) / n == a
  {
  }

  /** Hint for the real-division steps of MeanAlgebra, OutlierAlgebra and DivTwice. */
  lemma ProductOfDiv(a: real, n: real)
    requires n != 0.0
    ensures (a / n) * n == a
  {
  }

  /** A buffer equal to m everywhere except at position p, where it holds m + d. */
  predicate OneOff(s: seq<real>, p: int, m: real, d: real)
  {
    0 <= p < |s| && s[p] == m + d && forall i :: 0 <= i < |s| && i != p ==> s[i] == m
  }

  /**
   * The arithmetic behind OneOutlier: ssd, the squared deviations of k - 1
   * samples at m and one at m + d from mean = m + d / k, is d * d * (k - 1) / k.
   */
  lemma OutlierAlgebra(k: int, m: real, d: real, mean: real, ssd: real)
    requires k >= 1 && mean == m + d / k as real
    requires ssd == (k - 1) as real * ((m - mean) * (m - mean)) + (m + d - mean) * (m + d - mean)
    ensures ssd == d * d * (k - 1) as real / k as real
  {
    var n, rest := k as real, (k - 1) as real;
    var e := d / n;
    ProductOfDiv(d, n);
    assert (m - mean) * (m - mean) == e * e;
    assert (m + d - mean) * (m + d - mean) == d * d - 2.0 * d * e + e * e;
    assert rest * (e * e) == (e * n) * e - e * e;
    assert d * d * rest == (d * d - d * e) * n;
    DivOfProduct(d * d - d * e, n);
  }

  /** One more sample of x: k - 1 samples of x plus x is k samples of x. */
  lemma OneMoreRun(k: real, x: real)
    ensures (k - 1.0) * x + x == k * x
  {
  }

  /** The first loop's sum over a OneOff buffer: n - 1 samples of m and one of m + d. */
  lemma {:induction false} OneOffSum(s: seq<real>, p: int, m: real, d: real)
    requires OneOff(s, p, m, d)
    ensures Sum(s) == (|s| - 1) as real * m + (m + d)
  {
    var n := |s|;
    if p == n - 1 {
      SumConstant(s[..n - 1], m);
    } else {
      OneOffSum(s[..n - 1], p, m, d);
      OneMoreRun((n - 1) as real, m);
    }
  }

  /** The second loop's sum over a OneOff buffer, from any centre. */
  lemma {:induction false} OneOffSumSqDev(s: seq<real>, p: int, m: real, d: real, mean: real)
    requires OneOff(s, p, m, d)
    ensures SumSqDev(s, mean) == (|s| - 1) as real * ((m - mean) * (m - mean)) + (m + d - mean) * (m + d - mean)
  {
    var n := |s|;
    if p == n - 1 {
      SumSqDevConstant(s[..n - 1], m, mean);
    } else {
      OneOffSumSqDev(s[..n - 1], p, m, d, mean);
      OneMoreRun((n - 1) as real, (m - mean) * (m - mean));
    }
  }

  /** The arithmetic behind OutlierMean: ((n - 1) * m + (m + d)) / n == m + d / n. */
  lemma MeanAlgebra(n: real, sum: real, m: real, d: real)
    requires n >= 1.0 && sum == (n - 1.0) * m + (m + d)
    ensures sum / n == m + d / n
  {
    ProductOfDiv(d, n);
    assert sum == (m + d / n) * n;
    DivOfProduct(m + d / n, n);
  }

  /** The mean of a buffer equal to m except at one position, which holds m + d. */
  lemma OutlierMean(s: seq<real>, p: int, m: real, d: real)
    requires OneOff(s, p, m, d)
    ensures Mean(s) == m + d / |s| as real
  {
    OneOffSum(s, p, m, d);
    MeanAlgebra(|s| as real, Sum(s), m, d);
  }

  /** Dividing by n twice is dividing by n * n: the variance of OneOutlier's closed form. */
  lemma DivTwice(x: real, n: real)
    requires n > 0.0
    ensures x / n / n == x / (n * n)
  {
    var nn := n * n;
    DivOfProduct(n, n);
    assert nn != 0.0;
    var q := x / n / n;
    ProductOfDiv(x / n, n);
    ProductOfDiv(x, n);
    assert q * nn == x;
    DivOfProduct(q, nn);
  }

  lemma OutlierClosedForm(s: seq<real>, m: real, d: real, mean: real)
    requires |s| >= 1 && mean == m + d / |s| as real
    requires SumSqDev(s, mean) == (|s| - 1) as real * ((m - mean) * (m - mean)) + (m + d - mean) * (m + d - mean)
    ensures SumSqDev(s, mean) == d * d * (|s| - 1) as real / |s| as real
  {
    OutlierAlgebra(|s|, m, d, mean, SumSqDev(s, mean));
  }

  /** The second pass over a OneOff buffer, measured from its mean: d*d*(n-1)/n. */
  lemma OutlierSumSqDev(s: seq<real>, p: int, m: real, d: real)
    requires OneOff(s, p, m, d)
    ensures SumSqDev(s, Mean(s)) == d * d * (|s| - 1) as real / |s| as real
  {
    var mean := Mean(s);
    OutlierMean(s, p, m, d);
    OneOffSumSqDev(s, p, m, d, mean);
    OutlierClosedForm(s, m, d, mean);
  }

  /**
   * A buffer of n samples equal to m except at one position, which holds
   * m + d: the closed form of both passes, mean m + d/n and squared
   * deviations d*d*(n-1)/n, and so the result sqrt(d*d*(n-1)/(n*n)).
   */
  lemma OneOutlier(s: seq<real>, p: int, m: real, d: real, sqrt: real -> real)
    requires OneOff(s, p, m, d)
    ensures Mean(s) == m + d / |s| as real
    ensures SumSqDev(s, Mean(s)) == d * d * (|s| - 1) as real / |s| as real
    ensures StdDev(s, sqrt) == sqrt(d * d * (|s| - 1) as real / (|s| as real * |s| as real))
  {
    OutlierMean(s, p, m, d);
    OutlierSumSqDev(s, p, m, d);
    var n := |s| as real;
    assert Variance(s) == d * d * (|s| - 1) as real / n / n;
    DivTwice(d * d * (|s| - 1) as real, n);
    assert Variance(s) == d * d * (|s| - 1) as real / (n * n);
    assert StdDev(s, sqrt) == sqrt(Variance(s));
    assert n * n == |s| as real * |s| as real;
    assert StdDev(s, sqrt) == sqrt(d * d * (|s| - 1) as real / (|s| as real * |s| as real));
  }
}
