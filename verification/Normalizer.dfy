/** The standard normalizer as the program runs it: mutable points, two caches and
    index loops, each method proved against its function in Normalization. */
module Normalizer {
  import opened DataPoints
  import opened Normalization
  import opened PointCache

  /** Compares the explicit bounds of two histograms. */
  method BucketBoundariesEqual(a: seq<real>, b: seq<real>) returns (equal: bool)
    ensures equal <==> a == b
  {
    if |a| != |b| {
      return false;
    }
    for i := 0 to |a|
      invariant a[..i] == b[..i]
    {
      if a[i] != b[i] {
        return false;
      }
    }
    assert a == a[..|a|] == b[..|b|] == b;
    return true;
  }

  method SubtractBucketCounts(a: seq<uint64>, b: seq<uint64>) returns (newBuckets: array<uint64>)
    requires |a| == |b|
    ensures newBuckets[..] == SubtractCounts(a, b)
  {
    newBuckets := new uint64[|a|];
    for i := 0 to |a|
      invariant newBuckets[..i] == SubtractCounts(a, b)[..i]
    {
      newBuckets[i] := SubtractU64(a[i], b[i]);
    }
  }

  method SubtractExponentialBuckets(a: Buckets, b: Buckets) returns (newBuckets: array<uint64>)
    ensures newBuckets[..] == SubtractAligned(a, b)
  {
    newBuckets := new uint64[|a.counts|];
    var offsetDiff := WrapI32(a.offset - b.offset);
    for i := 0 to |a.counts|
      invariant newBuckets[..i] == SubtractAligned(a, b)[..i]
    {
      var bOffset := i + offsetDiff;
      if bOffset < 0 || bOffset >= |b.counts| {
        newBuckets[i] := a.counts[i];
      } else {
        newBuckets[i] := SubtractU64(a.counts[i], b.counts[bOffset]);
      }
    }
  }

  method IsComparable(a: DataPoint, b: DataPoint) returns (comparable: bool)
    requires a.data.Kind() == b.data.Kind()
    ensures comparable <==> Comparable(a.data, b.data)
  {
    match a.data {
      case HistogramData(h) => comparable := BucketBoundariesEqual(h.bounds, b.data.h.bounds);
      case ExponentialData(e) => comparable := e.scale == b.data.e.scale;
      case _ => comparable := true;
    }
  }

  /** Subtracts b from a, one setter at a time. */
  method Subtract(a: DataPoint, b: DataPoint)
    requires a != b && Comparable(a.data, b.data) && a.data.WellFormed() && b.data.WellFormed()
    modifies a`startTimestamp, a`data
    ensures a.startTimestamp == b.timestamp
    ensures a.data == SubtractData(old(a.data), b.data)
  {
    a.startTimestamp := b.timestamp;
    match a.data {
      case NumberData(n) =>
        match n {
          case IntValue(i) => a.data := NumberData(IntValue(WrapI64(i - b.data.n.AsInt())));
          case DoubleValue(d) => a.data := NumberData(DoubleValue(d - b.data.n.AsDouble()));
          case Unset =>
        }
      case SummaryData(s) =>
        a.data := SummaryData(a.data.s.(count := SubtractU64(s.count, b.data.s.count)));
        a.data := SummaryData(a.data.s.(sum := s.sum - b.data.s.sum));
      case HistogramData(h) =>
        a.data := HistogramData(a.data.h.(count := SubtractU64(h.count, b.data.h.count)));
        a.data := HistogramData(a.data.h.(sum := Some(a.data.Sum() - b.data.Sum())));
        var buckets := SubtractBucketCounts(h.bucketCounts, b.data.h.bucketCounts);
        a.data := HistogramData(a.data.h.(bucketCounts := buckets[..]));
      case ExponentialData(e) =>
        a.data := ExponentialData(a.data.e.(count := SubtractU64(e.count, b.data.e.count)));
        a.data := ExponentialData(a.data.e.(sum := Some(a.data.Sum() - b.data.Sum())));
        a.data := ExponentialData(a.data.e.(zeroCount := SubtractU64(e.zeroCount, b.data.e.zeroCount)));
        var positive := SubtractExponentialBuckets(e.positive, b.data.e.positive);
        a.data := ExponentialData(a.data.e.(positive := e.positive.(counts := positive[..])));
        var negative := SubtractExponentialBuckets(e.negative, b.data.e.negative);
        a.data := ExponentialData(a.data.e.(negative := e.negative.(counts := negative[..])));
    }
  }

  /** A new point at the start time of the given one, with the same shape and no value. */
  method ZeroPoint(point: DataPoint) returns (zeroPoint: DataPoint)
    ensures fresh(zeroPoint)
    ensures zeroPoint.Value() == Point(0, point.startTimestamp, ZeroData(point.data))
  {
    zeroPoint := new DataPoint(point.data.Kind());
    zeroPoint.timestamp := point.startTimestamp;
    match point.data {
      case HistogramData(h) =>
        zeroPoint.data := HistogramData(zeroPoint.data.h.(bounds := h.bounds));
        zeroPoint.data := HistogramData(zeroPoint.data.h.(bucketCounts := seq(|h.bucketCounts|, _ => 0)));
      case ExponentialData(e) =>
        zeroPoint.data := ExponentialData(zeroPoint.data.e.(scale := e.scale));
      case _ =>
    }
  }

  class StandardNormalizer {
    const startCache: Cache
    const previousCache: Cache

    ghost predicate Valid()
      reads this, startCache, startCache.Repr, previousCache, previousCache.Repr
    {
      startCache.Valid() && previousCache.Valid() && startCache.Repr !! previousCache.Repr
    }

    /** What the two caches hold for one series. */
    ghost function SeriesOf(key: Key): (s: Series)
      requires Valid()
      reads this, startCache, startCache.Repr, previousCache, previousCache.Repr
      ensures Fits(s, key.kind)
    {
      Series(startCache.SlotAt(key), previousCache.SlotAt(key))
    }

    constructor ()
      ensures Valid() && startCache.store == map[] && previousCache.store == map[]
      ensures fresh(startCache.Repr) && fresh(previousCache.Repr)
    {
      startCache := new Cache();
      previousCache := new Cache();
    }

    /** Nothing the caches own is the caller's point, and they own nothing in common. */
    ghost predicate Separate(point: DataPoint)
      reads this, startCache, previousCache
    {
      point !in startCache.Repr && point !in previousCache.Repr
    }

    /** The caches hold what the decision r leaves of the series, and nothing else
        in them has changed. */
    ghost predicate Holds(key: Key, r: Result, startStore: Store, previousStore: Store)
      reads startCache, previousCache
    {
      && Lookup(startCache.store, key) == r.series.start
      && Lookup(previousCache.store, key) == r.series.previous
      && SameElsewhere(startCache.store, startStore, key)
      && SameElsewhere(previousCache.store, previousStore, key)
    }

    /** Overwrites what both caches hold for the series. */
    method Remember(key: Key, start: DataPoint, previous: DataPoint)
      requires Valid() && Separate(start) && Separate(previous)
      requires start.data.Kind() == key.kind && start.data.WellFormed()
      requires previous.data.Kind() == key.kind && previous.data.WellFormed()
      modifies startCache.Repr, previousCache.Repr
      ensures Valid() && Separate(start) && Separate(previous)
      ensures fresh(startCache.Repr - old(startCache.Repr)) && fresh(previousCache.Repr - old(previousCache.Repr))
      ensures Lookup(startCache.store, key) == Some(Put(old(SeriesOf(key)).start, start.Value()))
      ensures Lookup(previousCache.store, key) == Some(Put(old(SeriesOf(key)).previous, previous.Value()))
      ensures SameElsewhere(startCache.store, old(startCache.store), key)
      ensures SameElsewhere(previousCache.store, old(previousCache.store), key)
    {
      startCache.Set(key, start);
      previousCache.Set(key, previous);
    }

    /** Both caches remember the point; it is dropped. */
    method Record(key: Key, point: DataPoint)
      requires Valid() && Separate(point)
      requires point.data.Kind() == key.kind && point.data.WellFormed()
      modifies startCache.Repr, previousCache.Repr
      ensures Valid() && Separate(point)
      ensures fresh(startCache.Repr - old(startCache.Repr)) && fresh(previousCache.Repr - old(previousCache.Repr))
      ensures Holds(key, Rebase(old(SeriesOf(key)), point.Value()), old(startCache.store), old(previousCache.store))
    {
      Remember(key, point, point);
    }

    /** A reset between the last point and this one: the point gets a start time a
        millisecond before it, and a zero point at that time becomes the new start. */
    method AssumeReset(key: Key, point: DataPoint)
      requires Valid() && Separate(point)
      requires point.data.Kind() == key.kind && point.data.WellFormed()
      modifies startCache.Repr, previousCache.Repr, point`startTimestamp
      ensures Valid() && Separate(point)
      ensures fresh(startCache.Repr - old(startCache.Repr)) && fresh(previousCache.Repr - old(previousCache.Repr))
      ensures point.Value() == ResetPoint(old(point.Value()))
      ensures Holds(key, ResetAt(old(SeriesOf(key)), old(point.Value())), old(startCache.store), old(previousCache.store))
    {
      point.startTimestamp := WrapU64(point.timestamp - MILLISECOND);
      var zeroPoint := ZeroPoint(point);
      Remember(key, zeroPoint, point);
    }

    /** No reset: the point is reduced by the start point and remembered. */
    method KeepDifference(key: Key, point: DataPoint, start: DataPoint)
      requires Valid() && Separate(point) && start in startCache.Repr
      requires point.data.Kind() == key.kind && point.data.WellFormed()
      requires SeriesOf(key).start == Some(Slot(start.timestamp, start.data, true))
      requires Comparable(point.data, start.data)
      modifies previousCache.Repr, point
      ensures Valid() && Separate(point)
      ensures fresh(previousCache.Repr - old(previousCache.Repr))
      ensures point.Value() == Difference(old(SeriesOf(key)), old(point.Value()))
      ensures Holds(key, Reduce(old(SeriesOf(key)), old(point.Value())), old(startCache.store), old(previousCache.store))
    {
      Subtract(point, start);
      previousCache.Set(key, point);
    }

    /** The reset test; previous falls back to start when it has been collected. */
    method ResetDetected(key: Key, point: DataPoint, start: DataPoint) returns (detected: bool)
      requires Valid() && Separate(point)
      requires start in startCache.Repr && point.data.Kind() == key.kind
      requires SeriesOf(key).start == Some(Slot(start.timestamp, start.data, true))
      modifies previousCache.Repr
      ensures Valid() && Separate(point) && previousCache.Repr == old(previousCache.Repr)
      ensures Lookup(previousCache.store, key) == Touch(old(SeriesOf(key)).previous)
      ensures SameElsewhere(previousCache.store, old(previousCache.store), key)
      ensures detected == DetectsReset(point.Value(), PreviousData(old(SeriesOf(key))))
    {
      var previous, hasPrevious := previousCache.Get(key);
      if !hasPrevious {
        previous := start;
      }
      detected := !Before(point.startTimestamp, point.timestamp)
        || (point.startTimestamp == 0 && LessThan(point.data, previous.data));
    }

    /** The part of the decision that needs a start point. */
    method NormalizeAgainst(key: Key, point: DataPoint, start: DataPoint) returns (keep: bool)
      requires Valid() && Separate(point) && point.data.WellFormed() && point.data.Kind() == key.kind
      requires start in startCache.Repr
      requires SeriesOf(key).start == Some(Slot(start.timestamp, start.data, true))
      modifies startCache.Repr, previousCache.Repr, point
      ensures Valid() && Separate(point)
      ensures fresh(startCache.Repr - old(startCache.Repr)) && fresh(previousCache.Repr - old(previousCache.Repr))
      ensures Holds(key, Decide(old(SeriesOf(key)), old(point.Value())), old(startCache.store), old(previousCache.store))
      ensures Decide(old(SeriesOf(key)), old(point.Value())).outcome == if keep then Kept(point.Value()) else Dropped
      ensures !keep ==> point.Value() == old(point.Value())
    {
      var comparable := IsComparable(point, start);
      if !comparable {
        Record(key, point);
        return false;
      }
      keep := NormalizeComparable(key, point, start);
    }

    method NormalizeComparable(key: Key, point: DataPoint, start: DataPoint) returns (keep: bool)
      requires Valid() && Separate(point) && point.data.WellFormed() && point.data.Kind() == key.kind
      requires start in startCache.Repr
      requires SeriesOf(key).start == Some(Slot(start.timestamp, start.data, true))
      requires Comparable(point.data, start.data)
      modifies startCache.Repr, previousCache.Repr, point
      ensures Valid() && Separate(point)
      ensures fresh(startCache.Repr - old(startCache.Repr)) && fresh(previousCache.Repr - old(previousCache.Repr))
      ensures Holds(key, Decide(old(SeriesOf(key)), old(point.Value())), old(startCache.store), old(previousCache.store))
      ensures Decide(old(SeriesOf(key)), old(point.Value())).outcome == if keep then Kept(point.Value()) else Dropped
      ensures !keep ==> point.Value() == old(point.Value())
    {
      var reset := ResetDetected(key, point, start);
      PreviousFlagIsInvisible(old(SeriesOf(key)), point.Value());
      if reset {
        AssumeReset(key, point);
        return true;
      }
      if !Before(start.timestamp, point.timestamp) {
        return false;
      }
      KeepDifference(key, point, start);
      return true;
    }

    /** No start point yet: a point whose start is unknown is recorded, any other one
        needs no normalization. */
    method NormalizeFirst(key: Key, point: DataPoint) returns (keep: bool)
      requires Valid() && Separate(point) && point.data.WellFormed() && point.data.Kind() == key.kind
      requires key !in startCache.store
      modifies startCache.Repr, previousCache.Repr
      ensures Valid() && Separate(point)
      ensures fresh(startCache.Repr - old(startCache.Repr)) && fresh(previousCache.Repr - old(previousCache.Repr))
      ensures Holds(key, Decide(old(SeriesOf(key)), old(point.Value())), old(startCache.store), old(previousCache.store))
      ensures Decide(old(SeriesOf(key)), old(point.Value())).outcome == if keep then Kept(point.Value()) else Dropped
      ensures !keep ==> point.Value() == old(point.Value())
    {
      if point.startTimestamp == 0 || !Before(point.startTimestamp, point.timestamp) {
        Record(key, point);
        return false;
      }
      return true;
    }

    /** The four Normalize*DataPoint methods. They share this control flow; where they
        differ (comparability, order, subtraction, zero point) the point's kind decides. */
    method Normalize(point: DataPoint, identifier: uint64) returns (keep: bool)
      requires Valid() && point.data.WellFormed()
      requires Separate(point)
      modifies startCache.Repr, previousCache.Repr, point
      ensures Valid()
      ensures fresh(startCache.Repr - old(startCache.Repr)) && fresh(previousCache.Repr - old(previousCache.Repr))
      ensures Separate(point)
      ensures
        var key := Key(old(point.data.Kind()), identifier);
        var r := Decide(old(SeriesOf(key)), old(point.Value()));
        && Holds(key, r, old(startCache.store), old(previousCache.store))
        && r.outcome == (if keep then Kept(point.Value()) else Dropped)
      ensures !keep ==> point.Value() == old(point.Value())
    {
      var key := Key(point.data.Kind(), identifier);
      var start, hasStart := startCache.Get(key);
      if !hasStart {
        keep := NormalizeFirst(key, point);
        return;
      }
      StartFlagIsInvisible(old(SeriesOf(key)), point.Value());
      keep := NormalizeAgainst(key, point, start);
    }

    /** The tickers of the two caches. */
    method Tick(start: bool, previous: bool)
      requires Valid()
      modifies startCache, previousCache
      ensures Valid() && startCache.Repr == old(startCache.Repr) && previousCache.Repr == old(previousCache.Repr)
      ensures startCache.store == if start then CollectAll(old(startCache.store)) else old(startCache.store)
      ensures previousCache.store == if previous then CollectAll(old(previousCache.store)) else old(previousCache.store)
    {
      if start {
        startCache.Gc();
      }
      if previous {
        previousCache.Gc();
      }
    }
  }
}
