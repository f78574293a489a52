/** The datapoint cache: stored points that are overwritten in place, handed out by
    reference, and deleted by a ticker when nobody has used them. */
module PointCache {
  import opened DataPoints
  import opened Normalization

  /** A metric data point, with the fields its setters write. */
  class DataPoint {
    var startTimestamp: uint64
    var timestamp: uint64
    var data: Data

    constructor (kind: Kind)
      ensures startTimestamp == 0 && timestamp == 0 && data == EmptyData(kind)
    {
      startTimestamp, timestamp, data := 0, 0, EmptyData(kind);
    }

    function Value(): Point
      reads this
    {
      Point(startTimestamp, timestamp, data)
    }
  }

  /** Copies the fields needed for normalization, one setter at a time. */
  method MinimalCopyTo(src: DataPoint, dest: DataPoint)
    requires src != dest && src.data.Kind() == dest.data.Kind()
    modifies dest`timestamp, dest`data
    ensures dest.timestamp == src.timestamp
    ensures dest.data == CopyInto(src.data, old(dest.data))
  {
    dest.timestamp := src.timestamp;
    match src.data {
      case NumberData(n) =>
        match n {
          case DoubleValue(d) => dest.data := NumberData(DoubleValue(d));
          case IntValue(i) => dest.data := NumberData(IntValue(i));
          case Unset =>
        }
      case SummaryData(s) =>
        dest.data := SummaryData(dest.data.s.(count := s.count));
        dest.data := SummaryData(dest.data.s.(sum := s.sum));
      case HistogramData(h) =>
        dest.data := HistogramData(dest.data.h.(count := h.count));
        dest.data := HistogramData(dest.data.h.(bucketCounts := h.bucketCounts));
        dest.data := HistogramData(dest.data.h.(bounds := h.bounds));
        if h.sum.Some? {
          dest.data := HistogramData(dest.data.h.(sum := h.sum));
        }
      case ExponentialData(e) =>
        dest.data := ExponentialData(dest.data.e.(count := e.count));
        dest.data := ExponentialData(dest.data.e.(zeroCount := e.zeroCount));
        dest.data := ExponentialData(dest.data.e.(scale := e.scale));
        dest.data := ExponentialData(dest.data.e.(positive := e.positive));
        dest.data := ExponentialData(dest.data.e.(negative := e.negative));
        if e.sum.Some? {
          dest.data := ExponentialData(dest.data.e.(sum := e.sum));
        }
        dest.data := ExponentialData(dest.data.e.(zeroThreshold := e.zeroThreshold));
    }
  }

  /** A stored point, and whether Get or Set touched it since the last tick. */
  datatype UsedPoint = UsedPoint(point: DataPoint, used: bool)

  /** The program keeps one map for each kind of point; here the kind is part of the key. */
  datatype Key = Key(kind: Kind, identifier: uint64)

  // ---------- the cache as a plain map ----------

  type Store = map<Key, Slot>

  function Lookup(store: Store, key: Key): Option<Slot> {
    if key in store then Some(store[key]) else None
  }

  ghost predicate SameElsewhere(a: Store, b: Store, key: Key) {
    forall other :: other != key ==> Lookup(a, other) == Lookup(b, other)
  }

  function CollectAll(store: Store): Store {
    map key | key in store && store[key].used :: store[key].(used := false)
  }

  /** A tick that has not yet reached the keys in todo. */
  ghost function CollectAllBut(store: Store, todo: set<Key>): Store {
    map key | key in store && (key in todo || store[key].used) ::
      if key in todo then store[key] else store[key].(used := false)
  }

  lemma CollectStep(store: Store, todo: set<Key>, key: Key)
    requires key in todo && todo <= CollectAllBut(store, todo).Keys
    ensures CollectAllBut(store, todo - {key})
         == (var before := CollectAllBut(store, todo);
             if before[key].used then before[key := before[key].(used := false)] else before - {key})
    ensures todo - {key} <= CollectAllBut(store, todo - {key}).Keys
  {
  }

  class Cache {
    var points: map<Key, UsedPoint>
    /** The contents, as values. */
    ghost var store: Store
    /** Everything the cache owns, and the key each stored point belongs to. */
    ghost var Repr: set<object>
    ghost var owner: map<DataPoint, Key>

    ghost predicate Valid()
      reads this, Repr
    {
      && this in Repr
      && points.Keys == store.Keys
      && (forall key :: key in points ==> Owned(key))
    }

    /** No two keys share a stored point. */
    ghost predicate Owned(key: Key)
      requires key in points && key in store
      reads this, Repr
    {
      var point := points[key].point;
      && point in Repr && point in owner && owner[point] == key
      && store[key] == Slot(point.timestamp, point.data, points[key].used)
      && SlotFits(Some(store[key]), key.kind)
    }

    ghost function SlotAt(key: Key): (slot: Option<Slot>)
      requires Valid()
      reads this, Repr
      ensures SlotFits(slot, key.kind)
    {
      assert key in points ==> Owned(key);
      Lookup(store, key)
    }

    constructor ()
      ensures Valid() && store == map[] && fresh(Repr)
    {
      points, store := map[], map[];
      Repr, owner := {this}, map[];
    }

    /** Returns the stored point itself, not a copy, and marks it as used. */
    method Get(key: Key) returns (point: DataPoint?, found: bool)
      requires Valid()
      modifies this`points, this`store
      ensures Valid()
      ensures SlotAt(key) == Touch(old(SlotAt(key))) && SameElsewhere(store, old(store), key)
      ensures found == (key in old(store))
      ensures found ==> point in Repr && SlotAt(key) == Some(Slot(point.timestamp, point.data, true))
    {
      found := key in points;
      if found {
        assert Owned(key);
        points := points[key := points[key].(used := true)];
        store := store[key := store[key].(used := true)];
        point := points[key].point;
      } else {
        point := null;
      }
    }

    /** Overwrites the stored point in place, or stores a minimal copy. Nothing of the
        caller's point is shared with the cache. */
    method Set(key: Key, point: DataPoint)
      requires Valid() && point !in Repr
      requires point.data.Kind() == key.kind && point.data.WellFormed()
      modifies Repr
      ensures Valid() && point !in Repr && fresh(Repr - old(Repr))
      ensures store == old(store)[key := Put(old(SlotAt(key)), point.Value())]
    {
      if key in points {
        Overwrite(key, point);
      } else {
        var newPoint := new DataPoint(key.kind);
        MinimalCopyTo(point, newPoint);
        Insert(key, newPoint);
      }
    }

    method Overwrite(key: Key, point: DataPoint)
      requires Valid() && point !in Repr && key in points
      requires point.data.Kind() == key.kind && point.data.WellFormed()
      modifies this`points, this`store, points[key].point
      ensures Valid()
      ensures store == old(store)[key := Put(Some(old(store)[key]), point.Value())]
    {
      assert Owned(key);
      points := points[key := points[key].(used := true)];
      MinimalCopyTo(point, points[key].point);
      store := store[key := Put(Some(store[key]), point.Value())];
    }

    method Insert(key: Key, newPoint: DataPoint)
      requires Valid() && newPoint !in Repr && newPoint !in owner && key !in points
      requires newPoint.data.Kind() == key.kind && newPoint.data.WellFormed()
      modifies this
      ensures Valid() && Repr == old(Repr) + {newPoint}
      ensures store == old(store)[key := Slot(newPoint.timestamp, newPoint.data, true)]
    {
      points := points[key := UsedPoint(newPoint, true)];
      store := store[key := Slot(newPoint.timestamp, newPoint.data, true)];
      Repr := Repr + {newPoint};
      owner := owner[newPoint := key];
    }

    /** One tick: used points become unused, unused points are deleted while the map
        is being walked in no particular order. */
    method Gc()
      requires Valid()
      modifies this`points, this`store
      ensures Valid() && Repr == old(Repr)
      ensures store == CollectAll(old(store))
    {
      var todo := points.Keys;
      while todo != {}
        invariant Valid()
        invariant todo <= points.Keys
        invariant store == CollectAllBut(old(store), todo)
      {
        var key :| key in todo;
        CollectStep(old(store), todo, key);
        CollectOne(key);
        todo := todo - {key};
      }
    }

    /** The body of the loop over the map. */
    method CollectOne(key: Key)
      requires Valid() && key in points
      modifies this`points, this`store
      ensures Valid()
      ensures store == if old(store)[key].used then old(store)[key := old(store)[key].(used := false)]
                       else old(store) - {key}
    {
      assert Owned(key);
      if points[key].used {
        points := points[key := points[key].(used := false)];
        store := store[key := store[key].(used := false)];
      } else {
        points := points - {key};
        store := store - {key};
      }
    }
  }

  /** Set, then whatever the caller does with the point, then Get: the cache still holds
      the copy, and it is what a plain map of fresh copies would hold exactly when the
      point brought what it overwrote. */
  method SetThenGet(cache: Cache, key: Key, point: DataPoint, later: Point) returns (stored: DataPoint)
    requires cache.Valid() && point !in cache.Repr
    requires point.data.Kind() == key.kind && point.data.WellFormed()
    modifies cache.Repr, point
    ensures cache.Valid() && stored != point && stored in cache.Repr
    ensures stored.timestamp == old(point.timestamp)
    ensures
      var prior := old(cache.SlotAt(key));
      stored.data == CopyInto(old(point.data), EmptyData(key.kind))
      <==> prior.None? || Overwrites(old(point.data), prior.value.data)
  {
    ghost var prior := cache.SlotAt(key);
    if prior.Some? {
      InPlaceCopyIsFreshCopyIff(point.data, prior.value.data);
    }
    cache.Set(key, point);
    point.startTimestamp, point.timestamp, point.data := later.start, later.time, later.data;
    var found;
    stored, found := cache.Get(key);
  }
}
