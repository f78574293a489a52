/** The normalizer object over whole runs of many interleaved series: each series sees
    exactly its own points and the ticks. */
module NormalizerRuns {
  import opened DataPoints
  import opened Normalization
  import opened PointCache
  import opened Normalizer
  import opened Runs
  import opened ExportedIntervals

  datatype Call = PushTo(key: Key, p: Point) | TickOf(start: bool, previous: bool)

  predicate WellKinded(calls: seq<Call>) {
    forall i :: 0 <= i < |calls| && calls[i].PushTo? ==>
      calls[i].p.data.Kind() == calls[i].key.kind && calls[i].p.data.WellFormed()
  }

  /** What one series sees of the calls. */
  function Project(calls: seq<Call>, key: Key): seq<Event> {
    if calls == [] then []
    else
      var rest, c := Project(calls[..|calls| - 1], key), calls[|calls| - 1];
      match c
      case TickOf(start, previous) => rest + [Tick(start, previous)]
      case PushTo(to, p) => if to == key then rest + [Push(p)] else rest
  }

  lemma {:induction false} ProjectOfKind(calls: seq<Call>, key: Key)
    requires WellKinded(calls)
    ensures OfKind(Pushes(Project(calls, key)), key.kind)
  {
    if calls != [] {
      var prefix, c := calls[..|calls| - 1], calls[|calls| - 1];
      ProjectOfKind(prefix, key);
      var rest, events := Project(prefix, key), Project(calls, key);
      assert events != rest ==> events[..|events| - 1] == rest;
    }
  }

  ghost function RunOf(calls: seq<Call>, key: Key): Trace
    requires WellKinded(calls)
  {
    ProjectOfKind(calls, key);
    Run(NOTHING, Project(calls, key), key.kind)
  }

  function KeptPoints(outcomes: seq<Outcome>): seq<Point> {
    if outcomes == [] then []
    else
      var o := outcomes[|outcomes| - 1];
      KeptPoints(outcomes[..|outcomes| - 1]) + if o.Kept? then [o.point] else []
  }

  function ExportsOf(exported: seq<(Key, Point)>, key: Key): seq<Point> {
    if exported == [] then []
    else
      var e := exported[|exported| - 1];
      ExportsOf(exported[..|exported| - 1], key) + if e.0 == key then [e.1] else []
  }

  lemma RunOfStep(calls: seq<Call>, c: Call, key: Key)
    requires WellKinded(calls + [c])
    ensures WellKinded(calls)
    ensures RunOf(calls + [c], key)
         == (var t := RunOf(calls, key);
             match c
             case TickOf(start, previous) => Trace(CollectSeries(t.series, Tick(start, previous)), t.outcomes)
             case PushTo(to, p) =>
               if to != key then t
               else Trace(Decide(t.series, p).series, t.outcomes + [Decide(t.series, p).outcome]))
  {
    var all := calls + [c];
    assert all[..|calls|] == calls && all[|calls|] == c;
    assert forall i :: 0 <= i < |calls| ==> calls[i] == all[i];
    ProjectOfKind(calls, key);
    ProjectOfKind(all, key);
    var rest, events := Project(calls, key), Project(all, key);
    if events != rest {
      assert events[..|rest|] == rest;
    }
  }

  /** What one call adds to the exports of its series. */
  ghost function NewExport(calls: seq<Call>, c: Call): seq<(Key, Point)>
    requires WellKinded(calls + [c]) && WellKinded(calls)
  {
    if c.TickOf? then []
    else
      assert (calls + [c])[|calls|] == c;
      var outcome := Decide(RunOf(calls, c.key).series, c.p).outcome;
      if outcome.Kept? then [(c.key, outcome.point)] else []
  }

  lemma KeptPointsSnoc(outcomes: seq<Outcome>, o: Outcome)
    ensures KeptPoints(outcomes + [o]) == KeptPoints(outcomes) + if o.Kept? then [o.point] else []
  {
    assert (outcomes + [o])[..|outcomes|] == outcomes;
  }

  lemma ExportsSnoc(exported: seq<(Key, Point)>, more: seq<(Key, Point)>, key: Key)
    requires |more| <= 1
    ensures ExportsOf(exported + more, key)
         == ExportsOf(exported, key) + if more != [] && more[0].0 == key then [more[0].1] else []
  {
    if more == [] {
      assert exported + more == exported;
    } else {
      assert (exported + more)[..|exported|] == exported;
    }
  }

  lemma ExportsStep(calls: seq<Call>, c: Call, exported: seq<(Key, Point)>, key: Key)
    requires WellKinded(calls + [c]) && WellKinded(calls)
    requires ExportsOf(exported, key) == KeptPoints(RunOf(calls, key).outcomes)
    ensures ExportsOf(exported + NewExport(calls, c), key) == KeptPoints(RunOf(calls + [c], key).outcomes)
  {
    RunOfStep(calls, c, key);
    ExportsSnoc(exported, NewExport(calls, c), key);
    if c.PushTo? && c.key == key {
      assert (calls + [c])[|calls|] == c;
      KeptPointsSnoc(RunOf(calls, key).outcomes, Decide(RunOf(calls, key).series, c.p).outcome);
    }
  }

  lemma CollectLookup(store: Store, key: Key)
    ensures Lookup(CollectAll(store), key) == Collect(Lookup(store, key))
  {
  }

  method PerformTick(n: StandardNormalizer, ghost done: seq<Call>, start: bool, previous: bool)
    requires n.Valid() && WellKinded(done) && WellKinded(done + [TickOf(start, previous)])
    requires forall key :: n.SeriesOf(key) == RunOf(done, key).series
    modifies n.startCache, n.previousCache
    ensures n.Valid()
    ensures n.startCache.Repr == old(n.startCache.Repr) && n.previousCache.Repr == old(n.previousCache.Repr)
    ensures forall key :: n.SeriesOf(key) == RunOf(done + [TickOf(start, previous)], key).series
  {
    ghost var starts, previouses := n.startCache.store, n.previousCache.store;
    n.Tick(start, previous);
    forall key ensures n.SeriesOf(key) == RunOf(done + [TickOf(start, previous)], key).series {
      CollectLookup(starts, key);
      CollectLookup(previouses, key);
      assert old(n.SeriesOf(key)) == Series(Lookup(starts, key), Lookup(previouses, key));
      RunOfStep(done, TickOf(start, previous), key);
    }
  }

  method PerformPush(n: StandardNormalizer, ghost done: seq<Call>, key: Key, p: Point)
    returns (exported: seq<(Key, Point)>)
    requires n.Valid() && WellKinded(done) && WellKinded(done + [PushTo(key, p)])
    requires p.data.Kind() == key.kind && p.data.WellFormed()
    requires forall key' :: n.SeriesOf(key') == RunOf(done, key').series
    modifies n.startCache.Repr, n.previousCache.Repr
    ensures n.Valid()
    ensures fresh(n.startCache.Repr - old(n.startCache.Repr)) && fresh(n.previousCache.Repr - old(n.previousCache.Repr))
    ensures exported == NewExport(done, PushTo(key, p))
    ensures forall key' :: n.SeriesOf(key') == RunOf(done + [PushTo(key, p)], key').series
  {
    var point := new DataPoint(key.kind);
    point.startTimestamp, point.timestamp, point.data := p.start, p.time, p.data;
    ghost var starts, previouses := n.startCache.store, n.previousCache.store;
    ghost var before := n.SeriesOf(key);
    var keep := n.Normalize(point, key.identifier);
    exported := if keep then [(key, point.Value())] else [];
    forall key' ensures n.SeriesOf(key') == RunOf(done + [PushTo(key, p)], key').series {
      RunOfStep(done, PushTo(key, p), key');
      if key' != key {
        assert Lookup(n.startCache.store, key') == Lookup(starts, key');
        assert Lookup(n.previousCache.store, key') == Lookup(previouses, key');
      }
    }
  }

  method Perform(n: StandardNormalizer, ghost done: seq<Call>, c: Call, before: seq<(Key, Point)>)
    returns (exported: seq<(Key, Point)>)
    requires n.Valid() && WellKinded(done) && WellKinded(done + [c])
    requires forall key :: n.SeriesOf(key) == RunOf(done, key).series
    requires forall key :: ExportsOf(before, key) == KeptPoints(RunOf(done, key).outcomes)
    modifies n.startCache.Repr, n.previousCache.Repr
    ensures n.Valid()
    ensures fresh(n.startCache.Repr - old(n.startCache.Repr)) && fresh(n.previousCache.Repr - old(n.previousCache.Repr))
    ensures forall key :: n.SeriesOf(key) == RunOf(done + [c], key).series
    ensures forall key :: ExportsOf(exported, key) == KeptPoints(RunOf(done + [c], key).outcomes)
  {
    assert (done + [c])[|done|] == c;
    forall key ensures ExportsOf(before + NewExport(done, c), key) == KeptPoints(RunOf(done + [c], key).outcomes) {
      ExportsStep(done, c, before, key);
    }
    var more := [];
    match c {
      case TickOf(start, previous) => PerformTick(n, done, start, previous);
      case PushTo(key, p) => more := PerformPush(n, done, key, p);
    }
    exported := before + more;
  }

  /** Runs the calls on a new normalizer, with a new mutable point for each push. */
  method Drive(calls: seq<Call>) returns (n: StandardNormalizer, exported: seq<(Key, Point)>)
    requires WellKinded(calls)
    ensures n.Valid()
    ensures forall key :: n.SeriesOf(key) == RunOf(calls, key).series
    ensures forall key :: ExportsOf(exported, key) == KeptPoints(RunOf(calls, key).outcomes)
  {
    n := new StandardNormalizer();
    exported := [];
    for i := 0 to |calls|
      invariant n.Valid() && fresh(n.startCache.Repr) && fresh(n.previousCache.Repr)
      invariant WellKinded(calls[..i])
      invariant forall key :: n.SeriesOf(key) == RunOf(calls[..i], key).series
      invariant forall key :: ExportsOf(exported, key) == KeptPoints(RunOf(calls[..i], key).outcomes)
    {
      assert calls[..i + 1] == calls[..i] + [calls[i]];
      exported := Perform(n, calls[..i], calls[i], exported);
    }
    assert calls[..|calls|] == calls;
  }

  // ---------- what the object exports ----------

  /** Every interval starts before it ends, and any two share a start or do not overlap. */
  ghost predicate Disjoint(points: seq<Point>) {
    && (forall i :: 0 <= i < |points| ==> Before(points[i].start, points[i].time))
    && (forall i, j :: 0 <= i < j < |points| ==> Continues(points[i], points[j]))
  }

  ghost predicate DisjointOutcomes(outcomes: seq<Outcome>) {
    && (forall i :: 0 <= i < |outcomes| && outcomes[i].Kept? ==>
          Before(outcomes[i].point.start, outcomes[i].point.time))
    && (forall i, j :: 0 <= i < j < |outcomes| && outcomes[i].Kept? && outcomes[j].Kept? ==>
          Continues(outcomes[i].point, outcomes[j].point))
  }

  lemma {:induction false} KeptComeFromOutcomes(outcomes: seq<Outcome>, q: Point)
    requires q in KeptPoints(outcomes)
    ensures Kept(q) in outcomes
  {
    if outcomes != [] {
      var init := outcomes[..|outcomes| - 1];
      if q in KeptPoints(init) {
        KeptComeFromOutcomes(init, q);
      }
    }
  }

  lemma {:induction false} KeptAreDisjoint(outcomes: seq<Outcome>)
    requires DisjointOutcomes(outcomes)
    ensures Disjoint(KeptPoints(outcomes))
  {
    if outcomes != [] {
      var n := |outcomes| - 1;
      var kept := KeptPoints(outcomes[..n]);
      KeptAreDisjoint(outcomes[..n]);
      forall i | 0 <= i < |kept| && outcomes[n].Kept? ensures Continues(kept[i], outcomes[n].point) {
        KeptComeFromOutcomes(outcomes[..n], kept[i]);
        var k :| 0 <= k < n && outcomes[k] == Kept(kept[i]);
      }
    }
  }

  /** The points pushed to the series have no usable start time and rise by a millisecond. */
  ghost predicate Documented(calls: seq<Call>, key: Key) {
    var points := Pushes(Project(calls, key));
    Rising(points) && forall i :: 0 <= i < |points| ==> StartUnknown(points[i])
  }

  lemma DocumentedRunIsDisjoint(calls: seq<Call>, key: Key)
    requires WellKinded(calls) && Documented(calls, key)
    ensures Disjoint(KeptPoints(RunOf(calls, key).outcomes))
  {
    ProjectOfKind(calls, key);
    RunInOrder(Project(calls, key), key.kind);
    KeptAreDisjoint(RunOf(calls, key).outcomes);
  }

  /** End to end: whatever else runs through the same caches, the normalizer object exports
      disjoint cumulative intervals for every series it is documented for. */
  method DriveDocumented(calls: seq<Call>) returns (exported: seq<(Key, Point)>)
    requires WellKinded(calls)
    ensures forall key :: Documented(calls, key) ==> Disjoint(ExportsOf(exported, key))
  {
    var n;
    n, exported := Drive(calls);
    forall key | Documented(calls, key) ensures Disjoint(ExportsOf(exported, key)) {
      DocumentedRunIsDisjoint(calls, key);
    }
  }

  // ---------- series with start times of their own ----------

  ghost predicate AllKept(outcomes: seq<Outcome>, points: seq<Point>) {
    |outcomes| == |points| && forall i :: 0 <= i < |points| ==> outcomes[i] == Kept(points[i])
  }

  lemma {:induction false} KeptOfAllKept(outcomes: seq<Outcome>, points: seq<Point>)
    requires AllKept(outcomes, points)
    ensures KeptPoints(outcomes) == points
  {
    if points != [] {
      var n := |points| - 1;
      KeptOfAllKept(outcomes[..n], points[..n]);
      assert points == points[..n] + [points[n]];
    }
  }

  /** Every point pushed to the series has a start time before its time. */
  ghost predicate Started(calls: seq<Call>, key: Key) {
    var points := Pushes(Project(calls, key));
    StartedUpTo(points, |points|)
  }

  lemma StartedRunPasses(calls: seq<Call>, key: Key)
    requires WellKinded(calls) && Started(calls, key)
    ensures KeptPoints(RunOf(calls, key).outcomes) == Pushes(Project(calls, key))
    ensures RunOf(calls, key).series == Series(None, None)
  {
    ProjectOfKind(calls, key);
    var points := Pushes(Project(calls, key));
    StartedPointsPass(Project(calls, key), key.kind, |points|);
    KeptOfAllKept(RunOf(calls, key).outcomes, points);
  }

  /** End to end: a series whose points all have start times is exported as it came, and
      neither cache ever holds anything of it. */
  method DriveStarted(calls: seq<Call>) returns (n: StandardNormalizer, exported: seq<(Key, Point)>)
    requires WellKinded(calls)
    ensures n.Valid()
    ensures forall key :: Started(calls, key) ==>
      ExportsOf(exported, key) == Pushes(Project(calls, key)) && n.SeriesOf(key) == Series(None, None)
  {
    n, exported := Drive(calls);
    forall key | Started(calls, key)
      ensures ExportsOf(exported, key) == Pushes(Project(calls, key)) && n.SeriesOf(key) == Series(None, None)
    {
      StartedRunPasses(calls, key);
    }
  }
}
