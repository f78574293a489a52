/** Explicit-bucket histograms: exactly when subtraction is exact. */
module Histograms {
  import opened DataPoints
  import opened ExponentialHistograms

  ghost predicate DominatesHistogram(a: HistogramFields, b: HistogramFields)
    requires |a.bucketCounts| == |b.bucketCounts|
  {
    b.count <= a.count && forall i :: 0 <= i < |a.bucketCounts| ==> b.bucketCounts[i] <= a.bucketCounts[i]
  }

  predicate IsDifference(d: int, a: int, b: int) {
    d == a - b
  }

  ghost predicate ExactHistogram(d: HistogramFields, a: HistogramFields, b: HistogramFields) {
    && |d.bucketCounts| == |a.bucketCounts| == |b.bucketCounts|
    && IsDifference(d.count, a.count, b.count)
    && forall i :: 0 <= i < |a.bucketCounts| ==> IsDifference(d.bucketCounts[i], a.bucketCounts[i], b.bucketCounts[i])
  }

  predicate SameBounds(a: HistogramFields, b: HistogramFields) {
    && a.bounds == b.bounds
    && |a.bucketCounts| == |a.bounds| + 1 && |b.bucketCounts| == |b.bounds| + 1
  }

  function SubtractHistogram(a: HistogramFields, b: HistogramFields): HistogramFields
    requires SameBounds(a, b)
  {
    SubtractData(HistogramData(a), HistogramData(b)).h
  }

  /** Nothing wraps exactly when count and buckets of the start point are dominated. */
  lemma HistogramIsExactIff(a: HistogramFields, b: HistogramFields)
    requires SameBounds(a, b)
    ensures ExactHistogram(SubtractHistogram(a, b), a, b) <==> DominatesHistogram(a, b)
  {
    var d := SubtractHistogram(a, b);
    assert d.bucketCounts == SubtractCounts(a.bucketCounts, b.bucketCounts);
    if ExactHistogram(d, a, b) {
      forall i | 0 <= i < |a.bucketCounts| ensures b.bucketCounts[i] <= a.bucketCounts[i] {
        assert IsDifference(d.bucketCounts[i], a.bucketCounts[i], b.bucketCounts[i]);
      }
    }
  }

  /** Every observation is in one bucket. */
  predicate BalancedHistogram(h: HistogramFields) {
    h.count == Total(h.bucketCounts)
  }

  lemma {:induction false} TotalOfCounts(a: seq<uint64>, b: seq<uint64>, d: seq<uint64>)
    requires |a| == |b| == |d| && forall i :: 0 <= i < |a| ==> IsDifference(d[i], a[i], b[i])
    ensures Total(d) == Total(a) - Total(b)
  {
    if a != [] {
      TotalOfCounts(a[..|a| - 1], b[..|b| - 1], d[..|d| - 1]);
    }
  }

  /** Exact subtraction keeps count and buckets in balance. */
  lemma ExactHistogramIsBalanced(a: HistogramFields, b: HistogramFields)
    requires SameBounds(a, b) && BalancedHistogram(a) && BalancedHistogram(b) && DominatesHistogram(a, b)
    ensures BalancedHistogram(SubtractHistogram(a, b))
  {
    HistogramIsExactIff(a, b);
    TotalOfCounts(a.bucketCounts, b.bucketCounts, SubtractHistogram(a, b).bucketCounts);
  }
}
