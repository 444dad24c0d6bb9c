/**
 * Summary statistics over the finite values of a sample, as numpy and pandas
 * compute them: mean, median, minimum, maximum, the population standard
 * deviation (`np.std`, `np.nanstd`, ddof = 0) and the sample standard
 * deviation (`pandas.Series.std`, ddof = 1, NaN for fewer than two values).
 */
module Stats {
  import opened RealMath
  import opened Floats
  import opened Sorting

  function Sum(s: seq<real>): real
  {
    if s == [] then 0.0 else s[0] + Sum(s[1..])
  }

  function Mean(s: seq<real>): real
    requires |s| > 0
  {
    Sum(s) / (|s| as real)
  }

  /** `np.min` / `np.nanmin` */
  function MinOf(s: seq<real>): real
    requires |s| > 0
  {
    if |s| == 1 then s[0]
    else
      var rest := MinOf(s[1..]);
      if s[0] <= rest then s[0] else rest
  }

  /** `np.max` / `np.nanmax` */
  function MaxOf(s: seq<real>): real
    requires |s| > 0
  {
    if |s| == 1 then s[0]
    else
      var rest := MaxOf(s[1..]);
      if rest <= s[0] then s[0] else rest
  }

  /** The minimum is below and the maximum above every value. */
  lemma {:induction false} MinMaxBound(s: seq<real>)
    requires |s| > 0
    ensures forall i :: 0 <= i < |s| ==> MinOf(s) <= s[i] <= MaxOf(s)
  {
    if |s| > 1 {
      MinMaxBound(s[1..]);
      assert forall i :: 1 <= i < |s| ==> s[i] == s[1..][i - 1];
    }
  }

  /** The minimum and the maximum are values of the sample. */
  lemma {:induction false} MinMaxAttained(s: seq<real>)
    requires |s| > 0
    ensures MinOf(s) in s && MaxOf(s) in s
  {
    if |s| > 1 {
      MinMaxAttained(s[1..]);
    }
  }

  /** `np.median`: the middle of the sorted values, or the mean of the two middle ones. */
  function Median(s: seq<real>): real
    requires |s| > 0
  {
    var t := SortBy(s, Id);
    var n := |t|;
    if n % 2 == 1 then t[n / 2] else (t[n / 2 - 1] + t[n / 2]) / 2.0
  }

  /** Sum of squared deviations from m. */
  function SquaredDeviations(s: seq<real>, m: real): real
  {
    if s == [] then 0.0 else (s[0] - m) * (s[0] - m) + SquaredDeviations(s[1..], m)
  }

  /** `np.std(s)` (ddof = 0). */
  function PopulationStd(sqrt: real -> real, s: seq<real>): real
    requires |s| > 0
  {
    sqrt(SquaredDeviations(s, Mean(s)) / (|s| as real))
  }

  /** `pandas.Series.std()` (ddof = 1): NaN below two values. */
  function SampleStd(sqrt: real -> real, s: seq<real>): Float
  {
    if |s| < 2 then NaN
    else Num(sqrt(SquaredDeviations(s, Mean(s)) / ((|s| - 1) as real)))
  }

  lemma {:induction false} SquaredDeviationsNonNegative(s: seq<real>, m: real)
    ensures 0.0 <= SquaredDeviations(s, m)
  {
    if s != [] {
      SquareNonNegative(s[0] - m);
      SquaredDeviationsNonNegative(s[1..], m);
    }
  }

  lemma {:induction false} SumBounds(s: seq<real>, lo: real, hi: real)
    requires forall i :: 0 <= i < |s| ==> lo <= s[i] <= hi
    ensures (|s| as real) * lo <= Sum(s) <= (|s| as real) * hi
  {
    if s != [] {
      assert forall i :: 0 <= i < |s[1..]| ==> s[1..][i] == s[i + 1];
      SumBounds(s[1..], lo, hi);
    }
  }

  lemma DivBounds(x: real, n: real, lo: real, hi: real)
    requires 0.0 < n
    requires n * lo <= x <= n * hi
    ensures lo <= x / n <= hi
  {
    DivMonotone(n * lo, x, n);
    DivMonotone(x, n * hi, n);
    assert (n * lo) / n == lo;
    assert (n * hi) / n == hi;
  }

  /** The mean lies between the smallest and the largest value. */
  lemma MeanBetweenMinAndMax(s: seq<real>)
    requires |s| > 0
    ensures MinOf(s) <= Mean(s) <= MaxOf(s)
  {
    MinMaxBound(s);
    SumBounds(s, MinOf(s), MaxOf(s));
    DivBounds(Sum(s), |s| as real, MinOf(s), MaxOf(s));
  }

  /** Every element of the sorted copy is an element of the sample. */
  lemma SortedCopyBounded(s: seq<real>, k: nat)
    requires k < |s|
    ensures |SortBy(s, Id)| == |s|
    ensures MinOf(s) <= SortBy(s, Id)[k] <= MaxOf(s)
  {
    var t := SortBy(s, Id);
    assert |t| == |multiset(t)| == |multiset(s)| == |s|;
    assert t[k] in multiset(t);
    assert t[k] in multiset(s);
    var m :| 0 <= m < |s| && s[m] == t[k];
    MinMaxBound(s);
  }

  /** The median lies between the smallest and the largest value. */
  lemma MedianBetweenMinAndMax(s: seq<real>)
    requires |s| > 0
    ensures MinOf(s) <= Median(s) <= MaxOf(s)
  {
    var t := SortBy(s, Id);
    var n := |t|;
    MiddleBounded(s, t, n / 2);
    if n % 2 == 0 {
      MiddleBounded(s, t, n / 2 - 1);
    }
  }

  /** Element k of the sorted copy t lies between the sample's extremes. */
  lemma MiddleBounded(s: seq<real>, t: seq<real>, k: int)
    requires |s| > 0 && t == SortBy(s, Id) && 0 <= k < |t|
    ensures MinOf(s) <= t[k] <= MaxOf(s)
  {
    SortedCopyBounded(s, k);
  }

  /** The population standard deviation is well defined and non-negative. */
  lemma PopulationStdNonNegative(sqrt: real -> real, s: seq<real>)
    requires IsSqrt(sqrt) && |s| > 0
    ensures 0.0 <= PopulationStd(sqrt, s)
  {
    SquaredDeviationsNonNegative(s, Mean(s));
  }

  /** The sample standard deviation is a non-negative number from two values on, NaN below. */
  lemma SampleStdDefinedFromTwo(sqrt: real -> real, s: seq<real>)
    requires IsSqrt(sqrt)
    ensures SampleStd(sqrt, s).Num? <==> |s| >= 2
    ensures SampleStd(sqrt, s).Num? ==> 0.0 <= SampleStd(sqrt, s).v
  {
    if |s| >= 2 {
      SquaredDeviationsNonNegative(s, Mean(s));
    }
  }
}
