/** What a call does to a point in each of its cases, field by field, for any state of the
    caches. */
module Decisions {
  import opened DataPoints
  import opened Normalization

  /** The caller set a start time before the point's time. */
  predicate Started(p: Point) {
    p.start != 0 && AsTime(p.start) < AsTime(p.time)
  }

  predicate ExplicitlyReset(p: Point) {
    AsTime(p.time) <= AsTime(p.start)
  }

  /** Bounds and scale are what tells buckets of one kind apart. */
  predicate SameBuckets(a: Data, b: Data)
    requires a.Kind() == b.Kind()
  {
    match a
    case HistogramData(h) => h.bounds == b.h.bounds
    case ExponentialData(e) => e.scale == b.e.scale
    case _ => true
  }

  /** A value, the count or the sum of a is below that of b; what is absent counts as zero. */
  predicate Fell(a: Data, b: Data)
    requires a.Kind() == b.Kind()
  {
    match a
    case NumberData(IntValue(i)) => i < if b.n.IntValue? then b.n.i else 0
    case NumberData(DoubleValue(d)) => d < if b.n.DoubleValue? then b.n.d else 0.0
    case NumberData(Unset) => false
    case SummaryData(s) => s.count < b.s.count || s.sum < b.s.sum
    case HistogramData(h) => h.count < b.h.count || Less(h.sum, b.h.sum)
    case ExponentialData(e) => e.count < b.e.count || Less(e.sum, b.e.sum)
  }

  predicate Less(a: Option<real>, b: Option<real>) {
    (if a.Some? then a.value else 0.0) < if b.Some? then b.value else 0.0
  }

  /** A stored point takes everything from the new one, except that an unset value or an
      absent sum leaves what was there. */
  predicate Stored(src: Data, prior: Option<Slot>, stored: Data)
    requires prior.Some? ==> prior.value.data.Kind() == src.Kind()
  {
    match src
    case NumberData(n) =>
      stored == if n != Unset then src else if prior.Some? then prior.value.data else src
    case SummaryData(_) => stored == src
    case HistogramData(h) =>
      stored == if h.sum.Some? || prior.None? then src else HistogramData(h.(sum := prior.value.data.h.sum))
    case ExponentialData(e) =>
      stored == if e.sum.Some? || prior.None? then src else ExponentialData(e.(sum := prior.value.data.e.sum))
  }

  /** Both slots hold the point, used. */
  predicate HoldsInBoth(s: Series, p: Point, before: Series)
    requires Fits(before, p.data.Kind())
  {
    && s.start.Some? && s.start.value.time == p.time && s.start.value.used
    && s.previous.Some? && s.previous.value.time == p.time && s.previous.value.used
    && Stored(p.data, before.start, s.start.value.data) && Stored(p.data, before.previous, s.previous.value.data)
  }

  /** Times and data are as before. */
  predicate OnlyTouched(before: Option<Slot>, after: Option<Slot>) {
    before.Some? == after.Some? &&
    (before.Some? ==>
       after.value.used && after.value.time == before.value.time && after.value.data == before.value.data)
  }

  // ---------- no start point ----------

  lemma FirstPointIsDropped(s: Series, p: Point)
    requires Fits(s, p.data.Kind()) && p.data.WellFormed() && s.start.None? && !Started(p)
    ensures Decide(s, p).outcome == Dropped && HoldsInBoth(Decide(s, p).series, p, s)
  {
  }

  lemma StartedPointPasses(s: Series, p: Point)
    requires Fits(s, p.data.Kind()) && p.data.WellFormed() && s.start.None? && Started(p)
    ensures Decide(s, p).outcome == Kept(p) && Decide(s, p).series == s
  {
  }

  // ---------- a start point ----------

  /** The point begins the series anew. */
  lemma OtherBucketsBeginAnew(s: Series, p: Point)
    requires Fits(s, p.data.Kind()) && p.data.WellFormed()
    requires s.start.Some? && !SameBuckets(p.data, s.start.value.data)
    ensures Decide(s, p).outcome == Dropped && HoldsInBoth(Decide(s, p).series, p, s)
  {
  }

  /** What the point is compared with: the previous point, or else the start point. */
  function LastData(s: Series): Data
    requires s.start.Some?
  {
    match s.previous
    case Some(slot) => slot.data
    case None => s.start.value.data
  }

  /** A reset is what the caller says is one, or a fall of a point without a start time. It
      is kept, with the start time moved to a millisecond before it and nothing else. */
  predicate IsReset(s: Series, p: Point)
    requires s.start.Some? && Fits(s, p.data.Kind())
  {
    ExplicitlyReset(p) || (p.start == 0 && Fell(p.data, LastData(s)))
  }

  lemma FallIsReset(s: Series, p: Point)
    requires Fits(s, p.data.Kind()) && p.data.WellFormed() && -TWO_63 + 1_000_000 <= AsTime(p.time)
    requires s.start.Some? && SameBuckets(p.data, s.start.value.data) && IsReset(s, p)
    ensures var r := Decide(s, p);
      && r.outcome.Kept? && r.outcome.point.time == p.time && r.outcome.point.data == p.data
      && AsTime(r.outcome.point.start) == AsTime(p.time) - 1_000_000
      && r.series.start.Some? && r.series.start.value.time == r.outcome.point.start && r.series.start.value.used
      && r.series.previous.Some? && r.series.previous.value.time == p.time && r.series.previous.value.used
      && Stored(p.data, s.previous, r.series.previous.value.data)
      && LeftByReset(r.series.start.value.data, p.data, s.start.value.data)
  {
    ResetPointStart(p);
  }

  /** What a reset leaves to be subtracted from later points: nothing, but for the number or
      the histogram's sum that was there. */
  predicate LeftByReset(left: Data, p: Data, prior: Data)
    requires p.Kind() == prior.Kind()
  {
    left.Kind() == p.Kind() &&
    match p
    case NumberData(_) => left == prior
    case SummaryData(_) => left.s.count == 0 && left.s.sum == 0.0
    case HistogramData(h) =>
      && left.h.count == 0 && left.h.sum == prior.h.sum && left.h.bounds == h.bounds
      && |left.h.bucketCounts| == |h.bucketCounts| && AllZero(left.h.bucketCounts)
    case ExponentialData(e) =>
      && left.e.count == 0 && left.e.zeroCount == 0 && left.e.sum == prior.e.sum && left.e.scale == e.scale
      && left.e.positive.counts == [] && left.e.negative.counts == []
  }

  predicate AllZero(counts: seq<uint64>) {
    forall i :: 0 <= i < |counts| ==> counts[i] == 0
  }

  /** Too old for the start point: dropped, and nothing is stored. */
  lemma StalePointIsDropped(s: Series, p: Point)
    requires Fits(s, p.data.Kind()) && p.data.WellFormed()
    requires s.start.Some? && SameBuckets(p.data, s.start.value.data) && !IsReset(s, p)
    requires AsTime(p.time) <= AsTime(s.start.value.time)
    ensures Decide(s, p).outcome == Dropped
    ensures OnlyTouched(s.start, Decide(s, p).series.start) && OnlyTouched(s.previous, Decide(s, p).series.previous)
  {
  }

  /** Any other point is kept under the start point's timestamp, and stored as it is
      exported; a start time of its own is given up and keeps a fall from being a reset. */
  lemma OtherPointIsReduced(s: Series, p: Point)
    requires Fits(s, p.data.Kind()) && p.data.WellFormed()
    requires s.start.Some? && SameBuckets(p.data, s.start.value.data) && !IsReset(s, p)
    requires AsTime(s.start.value.time) < AsTime(p.time)
    ensures var r := Decide(s, p);
      && r.outcome.Kept? && r.outcome.point.start == s.start.value.time && r.outcome.point.time == p.time
      && IsLess(r.outcome.point.data, p.data, s.start.value.data)
      && OnlyTouched(s.start, r.series.start)
      && r.series.previous.Some? && r.series.previous.value.time == p.time && r.series.previous.value.used
      && Stored(r.outcome.point.data, s.previous, r.series.previous.value.data)
  {
    DifferenceIsLess(p.data, s.start.value.data);
  }

  predicate IsDifference(d: int, a: int, b: int) {
    (d - (a - b)) % TWO_64 == 0
  }

  /** Counts, buckets and integers of d are those of a less those of b, modulo 2^64, values
      and sums are real differences, and what is not a quantity is as in a. (Exponential
      buckets have a theorem of their own.) */
  predicate IsLess(d: Data, a: Data, b: Data)
    requires a.Kind() == b.Kind()
  {
    d.Kind() == a.Kind() &&
    match a
    case NumberData(IntValue(i)) => d.n.IntValue? && IsDifference(d.n.i, i, if b.n.IntValue? then b.n.i else 0)
    case NumberData(DoubleValue(x)) => d.n == DoubleValue(x - if b.n.DoubleValue? then b.n.d else 0.0)
    case NumberData(Unset) => d.n == Unset
    case SummaryData(s) => IsDifference(d.s.count, s.count, b.s.count) && d.s.sum == s.sum - b.s.sum
    case HistogramData(h) =>
      && IsDifference(d.h.count, h.count, b.h.count) && d.h.bounds == h.bounds
      && d.h.sum == Some(Sum(h.sum) - Sum(b.h.sum))
      && |d.h.bucketCounts| == |h.bucketCounts| == |b.h.bucketCounts|
      && forall i :: 0 <= i < |h.bucketCounts| ==>
           IsDifference(d.h.bucketCounts[i], h.bucketCounts[i], b.h.bucketCounts[i])
    case ExponentialData(e) =>
      && IsDifference(d.e.count, e.count, b.e.count) && IsDifference(d.e.zeroCount, e.zeroCount, b.e.zeroCount)
      && d.e.sum == Some(Sum(e.sum) - Sum(b.e.sum))
      && d.e.scale == e.scale && d.e.zeroThreshold == e.zeroThreshold
      && d.e.positive.offset == e.positive.offset && |d.e.positive.counts| == |e.positive.counts|
      && d.e.negative.offset == e.negative.offset && |d.e.negative.counts| == |e.negative.counts|
  }

  lemma WrappedIsDifference(a: int, b: int)
    ensures IsDifference(WrapU64(a - b), a, b) && IsDifference(WrapI64(a - b), a, b)
  {
    WrapU64Is(a - b);
    WrapI64Is(a - b);
  }

  lemma DifferenceIsLess(a: Data, b: Data)
    requires a.Kind() == b.Kind() && SameBuckets(a, b) && a.WellFormed() && b.WellFormed()
    ensures IsLess(SubtractData(a, b), a, b)
  {
    match a
    case NumberData(n) => WrappedIsDifference(n.AsInt(), b.n.AsInt());
    case SummaryData(s) => WrappedIsDifference(s.count, b.s.count);
    case HistogramData(h) =>
      WrappedIsDifference(h.count, b.h.count);
      forall i | 0 <= i < |h.bucketCounts|
        ensures IsDifference(SubtractData(a, b).h.bucketCounts[i], h.bucketCounts[i], b.h.bucketCounts[i])
      {
        WrappedIsDifference(h.bucketCounts[i], b.h.bucketCounts[i]);
      }
    case ExponentialData(e) =>
      WrappedIsDifference(e.count, b.e.count);
      WrappedIsDifference(e.zeroCount, b.e.zeroCount);
  }

  function Sum(sum: Option<real>): real {
    if sum.Some? then sum.value else 0.0
  }
}
