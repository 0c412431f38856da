/** Otsu threshold selection over a bucketed intensity histogram
    (`calculate_otsu_threshold`).

    For every candidate split i in 1..N, class A is the first i buckets and
    class B the remaining N - i.  The between-class variance of the split is
    aCount * (aMean - mean)^2 + bCount * (bMean - mean)^2, and the threshold is
    the bucket mean that comes last when the bucket means are sorted by these
    variances.  The variance of split i is keyed to means[i - 1], the last
    bucket of class A.

    Arithmetic is exact (`real`).  The source never guards its divisions; this
    model takes x / 0 to be 0 (see Div), so a class with no pixels contributes
    nothing to the variance.  In particular a histogram whose counts are all
    zero is not an error: every variance is 0 and the last bucket mean is
    returned.  A histogram whose arrays are empty or differ in length yields an
    error instead of a value. */
module Otsu {
  import opened Wrappers
  import KeySort

  /** A histogram as the histogram reducer returns it: `counts` is its
      "histogram" array and `means` its "bucketMeans" array, in ascending
      order of intensity. */
  datatype Histogram = Histogram(counts: seq<nat>, means: seq<real>)

  /** The two arrays are empty or of different lengths. */
  datatype OtsuError = MalformedHistogram

  predicate WellFormed(h: Histogram) {
    |h.counts| == |h.means| && |h.counts| > 0
  }

  /** The number of pixels counted in c. */
  function Total(c: seq<nat>): nat {
    if c == [] then 0 else Total(c[..|c| - 1]) + c[|c| - 1]
  }

  /** The sum of count * mean over the buckets. */
  function WeightedSum(c: seq<nat>, m: seq<real>): real
    requires |c| == |m|
  {
    if c == [] then 0.0
    else WeightedSum(c[..|c| - 1], m[..|m| - 1]) + (c[|c| - 1] as real) * m[|m| - 1]
  }

  /** Division, taken to be 0 when the divisor is 0. */
  function Div(x: real, y: real): real {
    if y == 0.0 then 0.0 else x / y
  }

  /** Multiplication, named so that the sign rules below are stated on it. */
  function Times(x: real, y: real): real { x * y }

  /** `pow(2)`. */
  function Square(d: real): real { Times(d, d) }

  /** The between-class variance of a class of ca pixels at mean ma and a
      class of cb pixels at mean mb, around the overall mean. */
  function Variance(ca: real, ma: real, cb: real, mb: real, mean: real): real {
    ca * Square(ma - mean) + cb * Square(mb - mean)
  }

  /** `mean`: the count-weighted mean of all buckets. */
  function GlobalMean(h: Histogram): real
    requires WellFormed(h)
  {
    Div(WeightedSum(h.counts, h.means), Total(h.counts) as real)
  }

  /** `aCount` of split i: the pixels in the first i buckets. */
  function ClassACount(h: Histogram, i: nat): nat
    requires WellFormed(h) && i <= |h.counts|
  {
    Total(h.counts[..i])
  }

  /** `aMean` of split i: the weighted mean of the first i buckets. */
  function ClassAMean(h: Histogram, i: nat): real
    requires WellFormed(h) && i <= |h.counts|
  {
    Div(WeightedSum(h.counts[..i], h.means[..i]), ClassACount(h, i) as real)
  }

  /** `bCount` of split i, computed as the source does: total - aCount. */
  function ClassBCount(h: Histogram, i: nat): int
    requires WellFormed(h) && i <= |h.counts|
  {
    Total(h.counts) - ClassACount(h, i)
  }

  /** `bMean` of split i, computed as the source does:
      (sum_val - aCount * aMean) / bCount. */
  function ClassBMean(h: Histogram, i: nat): real
    requires WellFormed(h) && i <= |h.counts|
  {
    RemainderMean(WeightedSum(h.counts, h.means), ClassACount(h, i) as real, ClassAMean(h, i),
                  ClassBCount(h, i) as real)
  }

  /** The mean of what is left of a total weight sum once aCount pixels at
      aMean are taken out, over the bCount pixels left. */
  function RemainderMean(sum: real, aCount: real, aMean: real, bCount: real): real {
    Div(sum - aCount * aMean, bCount)
  }

  /** `calc_bss(i)`: the between-class variance of split i. */
  function BetweenClassVariance(h: Histogram, i: nat): real
    requires WellFormed(h) && i <= |h.counts|
  {
    Variance(ClassACount(h, i) as real, ClassAMean(h, i), ClassBCount(h, i) as real, ClassBMean(h, i),
             GlobalMean(h))
  }

  /** `bss`: the variances of the splits 1..N; entry k belongs to split k + 1. */
  function Bss(h: Histogram): (bss: seq<real>)
    requires WellFormed(h)
    ensures |bss| == |h.means|
  {
    seq(|h.means|, k requires 0 <= k < |h.means| => BetweenClassVariance(h, k + 1))
  }

  /** `calculate_otsu_threshold`: the bucket mean that comes last when the means
      are sorted by the variances of their splits.  It fails exactly on a
      malformed histogram. */
  function OtsuThreshold(h: Histogram): (r: Result<real, OtsuError>)
    ensures r.Failure? <==> !WellFormed(h)
  {
    if !WellFormed(h) then Failure(MalformedHistogram)
    else Success(KeySort.SortPick(Bss(h), h.means))
  }

  // ---------------------------------------------------------------------
  // Sums over a split histogram

  lemma {:induction false} TotalSplit(c: seq<nat>, i: nat)
    requires i <= |c|
    ensures Total(c) == Total(c[..i]) + Total(c[i..])
  {
    if i < |c| {
      var n := |c|;
      TotalSplit(c[..n - 1], i);
      assert c[..n - 1][..i] == c[..i];
      assert c[i..][..|c[i..]| - 1] == c[..n - 1][i..];
    } else {
      assert c[..i] == c;
    }
  }

  lemma {:induction false} WeightedSumSplit(c: seq<nat>, m: seq<real>, i: nat)
    requires |c| == |m| && i <= |c|
    ensures WeightedSum(c, m) == WeightedSum(c[..i], m[..i]) + WeightedSum(c[i..], m[i..])
  {
    if i < |c| {
      var n := |c|;
      WeightedSumSplit(c[..n - 1], m[..n - 1], i);
      assert c[..n - 1][..i] == c[..i];
      assert m[..n - 1][..i] == m[..i];
      assert c[i..][..|c[i..]| - 1] == c[..n - 1][i..];
      assert m[i..][..|m[i..]| - 1] == m[..n - 1][i..];
    } else {
      assert c[..i] == c && m[..i] == m;
    }
  }

  /** Buckets that hold no pixels add nothing to the weighted sum. */
  lemma {:induction false} EmptyBucketsWeighNothing(c: seq<nat>, m: seq<real>)
    requires |c| == |m| && Total(c) == 0
    ensures WeightedSum(c, m) == 0.0
  {
    if c != [] {
      EmptyBucketsWeighNothing(c[..|c| - 1], m[..|m| - 1]);
    }
  }

  /** For every split, class A is the first i buckets and class B the rest:
      their counts add up to the total and class B's count is that of the
      remaining buckets (so it is never negative). */
  lemma {:induction false} ClassCountsPartition(h: Histogram, i: nat)
    requires WellFormed(h) && 1 <= i <= |h.counts|
    ensures ClassACount(h, i) + ClassBCount(h, i) == Total(h.counts)
    ensures ClassBCount(h, i) == Total(h.counts[i..])
  {
    TotalSplit(h.counts, i);
  }

  /** aCount * aMean is the weighted sum of class A's buckets. */
  lemma {:induction false} ClassAWeight(h: Histogram, i: nat)
    requires WellFormed(h) && i <= |h.counts|
    ensures (ClassACount(h, i) as real) * ClassAMean(h, i)
            == WeightedSum(h.counts[..i], h.means[..i])
  {
    if ClassACount(h, i) == 0 {
      EmptyBucketsWeighNothing(h.counts[..i], h.means[..i]);
    }
  }

  /** The two class sums partition the weighted total:
      aCount * aMean + bCount * bMean == sum_val. */
  lemma {:induction false} ClassSumsPartition(h: Histogram, i: nat)
    requires WellFormed(h) && 1 <= i <= |h.counts|
    ensures (ClassACount(h, i) as real) * ClassAMean(h, i)
            + (ClassBCount(h, i) as real) * ClassBMean(h, i)
            == WeightedSum(h.counts, h.means)
  {
    var c, m := h.counts, h.means;
    ClassAWeight(h, i);
    ClassBMeanUnfold(h, i);
    var rest := WeightedSum(c, m) - (ClassACount(h, i) as real) * ClassAMean(h, i);
    if ClassBCount(h, i) == 0 {
      TotalSplit(c, i);
      WeightedSumSplit(c, m, i);
      EmptyBucketsWeighNothing(c[i..], m[i..]);
      assert rest == 0.0;
    } else {
      MultiplyQuotient(rest, ClassBCount(h, i) as real);
    }
  }

  lemma MultiplyQuotient(x: real, y: real)
    requires y != 0.0
    ensures y * (x / y) == x
  {
  }

  lemma {:induction false} ClassBMeanUnfold(h: Histogram, i: nat)
    requires WellFormed(h) && i <= |h.counts|
    ensures ClassBCount(h, i) == 0 ==> ClassBMean(h, i) == 0.0
    ensures ClassBCount(h, i) != 0 ==>
              ClassBMean(h, i)
              == (WeightedSum(h.counts, h.means) - (ClassACount(h, i) as real) * ClassAMean(h, i))
                 / (ClassBCount(h, i) as real)
  {
    RemainderMeanCases(WeightedSum(h.counts, h.means), ClassACount(h, i) as real, ClassAMean(h, i),
                       ClassBCount(h, i) as real);
  }

  lemma RemainderMeanCases(sum: real, aCount: real, aMean: real, bCount: real)
    ensures bCount == 0.0 ==> RemainderMean(sum, aCount, aMean, bCount) == 0.0
    ensures bCount != 0.0 ==> RemainderMean(sum, aCount, aMean, bCount) == (sum - aCount * aMean) / bCount
  {
  }

  /** bMean divides by bCount what class A leaves of the weighted total. */
  lemma {:induction false} ClassBMeanBySubtraction(h: Histogram, i: nat)
    requires WellFormed(h) && i <= |h.counts|
    ensures ClassBCount(h, i) == 0 ==> ClassBMean(h, i) == 0.0
    ensures ClassBCount(h, i) != 0 ==>
              ClassBMean(h, i)
              == (WeightedSum(h.counts, h.means) - WeightedSum(h.counts[..i], h.means[..i]))
                 / (ClassBCount(h, i) as real)
  {
    ClassBMeanUnfold(h, i);
    ClassAWeight(h, i);
  }

  /** Class B's mean, computed by subtraction as the source does, is the
      weighted mean of the remaining buckets. */
  lemma {:induction false} ClassBMeanIsSuffixMean(h: Histogram, i: nat)
    requires WellFormed(h) && 1 <= i <= |h.counts|
    ensures ClassBMean(h, i)
            == Div(WeightedSum(h.counts[i..], h.means[i..]), Total(h.counts[i..]) as real)
  {
    ClassBMeanBySubtraction(h, i);
    WeightedSumSplit(h.counts, h.means, i);
    ClassCountsPartition(h, i);
  }

  /** The returned threshold is the mean of a bucket k whose split (class A =
      buckets 0..k, so Bss(h)[k] is its variance) has a between-class variance
      at least that of every other split, and every later split's variance is
      strictly smaller: among equal maxima the last wins. */
  lemma {:induction false} ThresholdMaximizesVariance(h: Histogram)
    requires OtsuThreshold(h).Success?
    ensures exists k ::
              && 0 <= k < |h.means|
              && OtsuThreshold(h).value == h.means[k]
              && (forall j :: 0 <= j < |h.means| ==> Bss(h)[j] <= Bss(h)[k])
              && (forall j :: k < j < |h.means| ==> Bss(h)[j] < Bss(h)[k])
  {
    KeySort.SortPickIsLastArgMax(Bss(h), h.means);
  }

  /** The returned threshold is always one of the input bucket means. */
  lemma {:induction false} ThresholdIsBucketMean(h: Histogram)
    requires OtsuThreshold(h).Success?
    ensures OtsuThreshold(h).value in h.means
  {
    ThresholdMaximizesVariance(h);
  }

  /** No split has a negative between-class variance: class B's count,
      total - aCount, is the count of the remaining buckets. */
  lemma {:induction false} VarianceNonNegative(h: Histogram, i: nat)
    requires WellFormed(h) && i <= |h.counts|
    ensures BetweenClassVariance(h, i) >= 0.0
  {
    TotalSplit(h.counts, i);
    VarianceOfNonNegative(ClassACount(h, i) as real, ClassAMean(h, i), ClassBCount(h, i) as real,
                          ClassBMean(h, i), GlobalMean(h));
  }

  lemma VarianceOfNonNegative(ca: real, ma: real, cb: real, mb: real, mean: real)
    requires ca >= 0.0 && cb >= 0.0
    ensures Variance(ca, ma, cb, mb, mean) >= 0.0
  {
    SquareTimesCountNonNegative(ca, ma - mean);
    SquareTimesCountNonNegative(cb, mb - mean);
  }

  /** Every entry of `bss` is non-negative. */
  lemma BssNonNegative(h: Histogram)
    requires WellFormed(h)
    ensures forall k :: 0 <= k < |Bss(h)| ==> Bss(h)[k] >= 0.0
  {
    forall k | 0 <= k < |Bss(h)|
      ensures Bss(h)[k] >= 0.0
    {
      VarianceNonNegative(h, k + 1);
    }
  }

  lemma SquareTimesCountNonNegative(n: real, d: real)
    requires n >= 0.0
    ensures n * Square(d) >= 0.0
  {
    if d >= 0.0 {
      ProductNonNegative(d, d);
    } else {
      ProductNonNegative(-d, -d);
      ProductOfNegations(d, d);
    }
    ProductNonNegative(n, Square(d));
  }

  lemma ProductNonNegative(x: real, y: real)
    requires x >= 0.0 && y >= 0.0
    ensures Times(x, y) >= 0.0
  {
  }

  lemma ProductPositive(x: real, y: real)
    requires x > 0.0 && y > 0.0
    ensures Times(x, y) > 0.0
  {
  }

  lemma ProductOfNegations(x: real, y: real)
    ensures Times(-x, -y) == Times(x, y)
  {
  }

  // ---------------------------------------------------------------------
  // Worked histograms

  /** A histogram that holds no pixels is not an error: every split has
      variance 0, and the last bucket mean is returned. */
  lemma {:induction false} AllEmptyPicksLastMean(h: Histogram)
    requires WellFormed(h) && Total(h.counts) == 0
    ensures forall k :: 0 <= k < |h.means| ==> Bss(h)[k] == 0.0
    ensures OtsuThreshold(h) == Success(h.means[|h.means| - 1])
  {
    var bss := Bss(h);
    var n := |bss|;
    forall k | 0 <= k < n
      ensures bss[k] == 0.0
    {
      TotalSplit(h.counts, k + 1);
      EmptyClassesVariance(ClassAMean(h, k + 1), ClassBMean(h, k + 1), GlobalMean(h));
    }
    var k := KeySort.LastArgMax(bss);
    assert bss[n - 1] == 0.0 && bss[k] == 0.0;
    assert k == n - 1;
  }

  lemma EmptyClassesVariance(ma: real, mb: real, mean: real)
    ensures Variance(0.0, ma, 0.0, mb, mean) == 0.0
  {
  }

  // ---------------------------------------------------------------------
  // Histograms with two occupied buckets

  /** Only buckets p < q hold pixels; every other bucket is empty. */
  predicate TwoMasses(h: Histogram, p: nat, q: nat) {
    && WellFormed(h) && p < q < |h.counts|
    && h.counts[p] > 0 && h.counts[q] > 0
    && (forall j :: 0 <= j < |h.counts| && j != p && j != q ==> h.counts[j] == 0)
  }

  /** The count and the weighted sum of the first i buckets when only buckets
      p and q are occupied. */
  lemma {:induction false} TwoMassPrefix(h: Histogram, p: nat, q: nat, i: nat)
    requires TwoMasses(h, p, q) && i <= |h.counts|
    ensures Total(h.counts[..i])
            == if i <= p then 0 else if i <= q then h.counts[p] else h.counts[p] + h.counts[q]
    ensures WeightedSum(h.counts[..i], h.means[..i])
            == if i <= p then 0.0
               else if i <= q then (h.counts[p] as real) * h.means[p]
               else (h.counts[p] as real) * h.means[p] + (h.counts[q] as real) * h.means[q]
  {
    if i > 0 {
      TwoMassPrefix(h, p, q, i - 1);
      assert h.counts[..i][..i - 1] == h.counts[..i - 1];
      assert h.means[..i][..i - 1] == h.means[..i - 1];
    }
  }

  /** The whole histogram: the total and the weighted sum of the two masses. */
  lemma {:induction false} TwoMassTotals(h: Histogram, p: nat, q: nat)
    requires TwoMasses(h, p, q)
    ensures Total(h.counts) == h.counts[p] + h.counts[q]
    ensures WeightedSum(h.counts, h.means)
            == (h.counts[p] as real) * h.means[p] + (h.counts[q] as real) * h.means[q]
  {
    TwoMassPrefix(h, p, q, |h.counts|);
    assert h.counts[..|h.counts|] == h.counts && h.means[..|h.means|] == h.means;
  }

  /** Every split that separates the two masses (class A ends at or after
      bucket p and before bucket q) finds both of them exactly. */
  lemma {:induction false} TwoMassClasses(h: Histogram, p: nat, q: nat, i: nat)
    requires TwoMasses(h, p, q) && p < i <= q
    ensures ClassACount(h, i) == h.counts[p] && ClassBCount(h, i) == h.counts[q]
    ensures ClassAMean(h, i) == h.means[p] && ClassBMean(h, i) == h.means[q]
  {
    TwoMassClassA(h, p, q, i);
    TwoMassClassB(h, p, q, i);
  }

  /** Class A of a separating split is the first mass. */
  lemma {:induction false} TwoMassClassA(h: Histogram, p: nat, q: nat, i: nat)
    requires TwoMasses(h, p, q) && p < i <= q
    ensures ClassACount(h, i) == h.counts[p] && ClassAMean(h, i) == h.means[p]
  {
    TwoMassBetween(h, p, q, i);
    ClassAMeanIs(h, i, h.counts[p] as real, h.means[p]);
  }

  /** Class B of a separating split is the second mass. */
  lemma {:induction false} TwoMassClassB(h: Histogram, p: nat, q: nat, i: nat)
    requires TwoMasses(h, p, q) && p < i <= q
    ensures ClassBCount(h, i) == h.counts[q] && ClassBMean(h, i) == h.means[q]
  {
    TwoMassClassA(h, p, q, i);
    TwoMassTotals(h, p, q);
    ClassBMeanIs(h, i, h.counts[p] as real, h.means[p], h.counts[q] as real, h.means[q]);
  }

  /** A split between the masses: its first i buckets hold exactly the
      first mass. */
  lemma TwoMassBetween(h: Histogram, p: nat, q: nat, i: nat)
    requires TwoMasses(h, p, q) && p < i <= q
    ensures Total(h.counts[..i]) == h.counts[p]
    ensures WeightedSum(h.counts[..i], h.means[..i]) == (h.counts[p] as real) * h.means[p]
  {
    TwoMassPrefix(h, p, q, i);
  }

  /** Class A of split i holds ca pixels of total weight ca * m: its mean is m. */
  lemma ClassAMeanIs(h: Histogram, i: nat, ca: real, m: real)
    requires WellFormed(h) && i <= |h.counts|
    requires ClassACount(h, i) as real == ca && ca != 0.0
    requires WeightedSum(h.counts[..i], h.means[..i]) == ca * m
    ensures ClassAMean(h, i) == m
  {
    assert ClassAMean(h, i) == Div(ca * m, ca);
    MeanOfOne(ca, m);
  }

  /** The first i buckets weigh ca * ma and class B of split i holds cb
      pixels; when the whole histogram weighs ca * ma + cb * mb, class B's
      mean is mb. */
  lemma ClassBMeanIs(h: Histogram, i: nat, ca: real, ma: real, cb: real, mb: real)
    requires WellFormed(h) && i <= |h.counts|
    requires WeightedSum(h.counts[..i], h.means[..i]) == ca * ma
    requires ClassBCount(h, i) as real == cb && cb != 0.0
    requires WeightedSum(h.counts, h.means) == ca * ma + cb * mb
    ensures ClassBMean(h, i) == mb
  {
    ClassBMeanBySubtraction(h, i);
    var rest := WeightedSum(h.counts, h.means) - WeightedSum(h.counts[..i], h.means[..i]);
    assert rest == cb * mb;
    QuotientOfProduct(cb, mb);
  }

  /** A split that leaves one class empty has variance 0: the other class is
      the whole histogram, whose mean is the global mean. */
  lemma {:induction false} TwoMassOneSided(h: Histogram, p: nat, q: nat, i: nat)
    requires TwoMasses(h, p, q) && i <= |h.counts| && (i <= p || q < i)
    ensures BetweenClassVariance(h, i) == 0.0
  {
    TwoMassPrefix(h, p, q, i);
    TwoMassTotals(h, p, q);
    ClassBMeanUnfold(h, i);
    OneClassVariance(ClassACount(h, i) as real, ClassAMean(h, i), ClassBCount(h, i) as real,
                     ClassBMean(h, i), GlobalMean(h));
  }

  /** When one class is empty and the other sits at the overall mean, the
      variance is 0. */
  lemma OneClassVariance(ca: real, ma: real, cb: real, mb: real, mean: real)
    requires (ca == 0.0 && mb == mean) || (cb == 0.0 && ma == mean)
    ensures Variance(ca, ma, cb, mb, mean) == 0.0
  {
  }

  /** The between-class variance of a mixture of a pixels at mp and b pixels
      at mq, split into its two populations. */
  function MixtureVariance(a: real, mp: real, b: real, mq: real): real {
    Variance(a, mp, b, mq, Div(a * mp + b * mq, a + b))
  }

  /** Every separating split has the variance of the two-population mixture. */
  lemma {:induction false} TwoMassSeparating(h: Histogram, p: nat, q: nat, i: nat)
    requires TwoMasses(h, p, q) && p < i <= q
    ensures BetweenClassVariance(h, i)
            == MixtureVariance(h.counts[p] as real, h.means[p], h.counts[q] as real, h.means[q])
  {
    TwoMassClasses(h, p, q, i);
    TwoMassTotals(h, p, q);
    var a, b := h.counts[p] as real, h.counts[q] as real;
    var mean := Div(a * h.means[p] + b * h.means[q], a + b);
    var sum, total := WeightedSum(h.counts, h.means), Total(h.counts) as real;
    assert sum == a * h.means[p] + b * h.means[q] && total == a + b;
    assert GlobalMean(h) == Div(sum, total);
    SplitVariance(h, i, a, h.means[p], b, h.means[q], mean);
  }

  /** The variance of split i, given its class counts and means and the
      global mean. */
  lemma SplitVariance(h: Histogram, i: nat, ca: real, ma: real, cb: real, mb: real, mean: real)
    requires WellFormed(h) && i <= |h.counts|
    requires ClassACount(h, i) as real == ca && ClassAMean(h, i) == ma
    requires ClassBCount(h, i) as real == cb && ClassBMean(h, i) == mb
    requires GlobalMean(h) == mean
    ensures BetweenClassVariance(h, i) == Variance(ca, ma, cb, mb, mean)
  {
  }

  /** Two populations at different means have a positive between-class
      variance. */
  lemma MixtureVariancePositive(a: real, mp: real, b: real, mq: real)
    requires a > 0.0 && b > 0.0 && mp != mq
    ensures MixtureVariance(a, mp, b, mq) > 0.0
  {
    var mean := Div(a * mp + b * mq, a + b);
    MixedMeanDiffers(a, mp, b, mq);
    VariancePositive(a, mp, b, mq, mean);
  }

  /** A populated class away from the mean makes the variance positive. */
  lemma VariancePositive(ca: real, ma: real, cb: real, mb: real, mean: real)
    requires ca > 0.0 && ma != mean && cb >= 0.0
    ensures Variance(ca, ma, cb, mb, mean) > 0.0
  {
    CountTimesSquarePositive(ca, ma - mean);
    SquareTimesCountNonNegative(cb, mb - mean);
  }

  lemma CountTimesSquarePositive(n: real, d: real)
    requires n > 0.0 && d != 0.0
    ensures n * Square(d) > 0.0
  {
    if d > 0.0 {
      ProductPositive(d, d);
    } else {
      ProductPositive(-d, -d);
      ProductOfNegations(d, d);
    }
    ProductPositive(n, Square(d));
  }

  /** When only buckets p < q hold pixels, at different means, every split
      between them has the same, largest variance, and the last of them wins:
      the threshold is the mean of bucket q - 1, the last bucket before the
      second mass.  With no empty bucket between the masses (q = p + 1) this
      is the lower mass's own mean. */
  lemma {:induction false} TwoMassesThreshold(h: Histogram, p: nat, q: nat)
    requires TwoMasses(h, p, q) && h.means[p] != h.means[q]
    ensures OtsuThreshold(h) == Success(h.means[q - 1])
  {
    var bss := Bss(h);
    var v := MixtureVariance(h.counts[p] as real, h.means[p], h.counts[q] as real, h.means[q]);
    MixtureVariancePositive(h.counts[p] as real, h.means[p], h.counts[q] as real, h.means[q]);
    forall k | 0 <= k < |bss|
      ensures bss[k] == if p <= k < q then v else 0.0
    {
      if p <= k < q {
        TwoMassSeparating(h, p, q, k + 1);
      } else {
        TwoMassOneSided(h, p, q, k + 1);
      }
    }
    var k := KeySort.LastArgMax(bss);
    assert bss[q - 1] == v && v > 0.0;
    assert p <= k < q;
    assert k == q - 1;
  }

  /** A perfect two-class mixture: a pixels at m1 and b pixels at m2 in
      adjacent buckets.  The separating split finds both classes exactly and,
      because the variance of a split is keyed to the last bucket of class A,
      the threshold returned is m1. */
  lemma {:induction false} TwoClassMixture(a: nat, b: nat, m1: real, m2: real)
    requires a > 0 && b > 0 && m1 != m2
    ensures var h := Histogram([a, b], [m1, m2]);
            && ClassACount(h, 1) == a && ClassBCount(h, 1) == b
            && ClassAMean(h, 1) == m1 && ClassBMean(h, 1) == m2
            && OtsuThreshold(h) == Success(m1)
  {
    var h := Histogram([a, b], [m1, m2]);
    assert TwoMasses(h, 0, 1);
    TwoMassClasses(h, 0, 1, 1);
    TwoMassesThreshold(h, 0, 1);
  }

  /** The two masses of the mixture above with an empty bucket between them:
      now the splits after the first and after the second bucket tie, and the
      threshold is the empty bucket's mean. */
  lemma {:induction false} SeparatedMasses()
    ensures OtsuThreshold(Histogram([100, 0, 50], [-20.0, -15.0, -10.0])) == Success(-15.0)
  {
    var h := Histogram([100, 0, 50], [-20.0, -15.0, -10.0]);
    assert TwoMasses(h, 0, 2);
    TwoMassesThreshold(h, 0, 2);
  }

  lemma MeanOfOne(a: real, m: real)
    requires a != 0.0
    ensures Div(a * m, a) == m
  {
  }

  lemma QuotientOfProduct(a: real, m: real)
    requires a != 0.0
    ensures (a * m) / a == m
  {
  }

  lemma MixedMeanDiffers(a: real, mp: real, b: real, mq: real)
    requires a > 0.0 && b > 0.0 && mp != mq
    ensures Div(a * mp + b * mq, a + b) != mp
  {
  }

  /** Two dense clusters with a sparse bucket between them: 100 pixels at -20,
      10 at -15 and 100 at -10.  Splitting after the first or after the second
      bucket gives the same between-class variance; the later split wins the
      tie, so the threshold is the sparse middle bucket, -15. */
  lemma {:induction false} SparseMiddleBucket()
    ensures OtsuThreshold(Histogram([100, 10, 100], [-20.0, -15.0, -10.0])) == Success(-15.0)
  {
    var h := Histogram([100, 10, 100], [-20.0, -15.0, -10.0]);
    SparseMiddleSplits(h);
    ThresholdMaximizesVariance(h);
    var bss := Bss(h);
    assert bss[0] == bss[1] && bss[2] < bss[1];
  }

  /** The variances of the three splits of the sparse-middle histogram. */
  lemma SparseMiddleSplits(h: Histogram)
    requires h == Histogram([100, 10, 100], [-20.0, -15.0, -10.0])
    ensures BetweenClassVariance(h, 1) == 52500.0 / 11.0
    ensures BetweenClassVariance(h, 2) == 52500.0 / 11.0
    ensures BetweenClassVariance(h, 3) == 0.0
  {
    SparseMiddleSums(h);
    ClassAMeanIs(h, 1, 100.0, -20.0);
    ClassBMeanIs(h, 1, 100.0, -20.0, 110.0, -115.0 / 11.0);
    SplitVariance(h, 1, 100.0, -20.0, 110.0, -115.0 / 11.0, -15.0);
    ClassAMeanIs(h, 2, 110.0, -215.0 / 11.0);
    ClassBMeanIs(h, 2, 110.0, -215.0 / 11.0, 100.0, -10.0);
    SplitVariance(h, 2, 110.0, -215.0 / 11.0, 100.0, -10.0, -15.0);
    ClassAMeanIs(h, 3, 210.0, -15.0);
    SplitVariance(h, 3, 210.0, -15.0, 0.0, 0.0, -15.0);
  }

  /** The prefix counts and weights of the sparse-middle histogram. */
  lemma SparseMiddleSums(h: Histogram)
    requires h == Histogram([100, 10, 100], [-20.0, -15.0, -10.0])
    ensures Total(h.counts[..1]) == 100 && WeightedSum(h.counts[..1], h.means[..1]) == -2000.0
    ensures Total(h.counts[..2]) == 110 && WeightedSum(h.counts[..2], h.means[..2]) == -2150.0
    ensures Total(h.counts) == 210 && WeightedSum(h.counts, h.means) == -3150.0
    ensures h.counts[..3] == h.counts && h.means[..3] == h.means
    ensures GlobalMean(h) == -15.0
  {
    assert h.counts[..1] == [100] && h.means[..1] == [-20.0];
    assert h.counts[..2] == [100, 10] && h.means[..2] == [-20.0, -15.0];
    assert h.counts[..3] == h.counts && h.means[..3] == h.means;
    assert [100, 10][..1] == [100] && [-20.0, -15.0][..1] == [-20.0];
    assert [100][..0] == [] && [-20.0][..0] == [];
  }
}
