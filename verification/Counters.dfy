/** Counters that rise and fall at will, with integer or double values: what every point is
    exported as, exactly which falls are noticed, and where an exported value falls. */
module Counters {
  import opened DataPoints
  import opened Normalization
  import opened Runs
  import opened CachePresence
  import opened ClosedForm
  import opened ResetPromise

  /** The points of one counter, all integers or all doubles, without start times. */
  ghost predicate CounterSeries(points: seq<Point>) {
    && points != [] && Regular(points)
    && (forall i :: 0 <= i < |points| ==> points[i].start == 0 && Before(0, points[i].time))
    && (forall i :: 0 <= i < |points| ==> SameType(points[i].data, points[0].data))
  }

  predicate SameType(a: Data, b: Data) {
    a.NumberData? && b.NumberData? && a.n.IntValue? == b.n.IntValue? && a.n.DoubleValue? == b.n.DoubleValue?
  }

  function Number(d: Data): real {
    if d.NumberData? then d.n.AsInt() as real + d.n.AsDouble() else 0.0
  }

  ghost predicate IsCounter(h: History) {
    CounterSeries(h.points) && h.base == h.points[0].data && |h.lost| == |h.points|
  }

  /** The raw value and the exported one. */
  function Value(h: History, i: nat): real
    requires i < |h.points|
  {
    Number(h.points[i].data)
  }

  function Out(h: History, i: nat): real
    requires i < |h.points|
  {
    Number(h.Exported(i))
  }

  ghost predicate NonNegative(h: History) {
    forall i: nat :: i < |h.points| ==> Value(h, i) >= 0.0
  }

  // ---------- what is exported ----------

  /** A reset leaves the first value in the start slot, so it is subtracted for ever. */
  lemma {:induction false} StartStays(h: History, i: nat)
    requires IsCounter(h) && i < |h.points|
    ensures h.StartData(i) == h.points[0].data
  {
    if i > 0 {
      StartStays(h, i - 1);
    }
  }

  lemma TypeStays(h: History, i: nat)
    requires IsCounter(h) && i < |h.points|
    ensures SameType(h.Exported(i), h.points[0].data)
  {
    assert SameType(h.points[i].data, h.points[0].data) && Carries(h.points[0].data) && Carries(h.points[i].data);
    if i > 0 {
      StartStays(h, i - 1);
    }
  }

  /** Over every timely run of a counter: each value after the first is exported raw if it
      is seen as a reset, and less the first one otherwise. */
  lemma CounterRun(events: seq<Event>, i: nat)
    requires OfKind(Pushes(events), Kind.Number) && CounterSeries(Pushes(events)) && Timely(events)
    requires 0 < i < |Pushes(events)|
    ensures var h := FreshHistory(Pushes(events), Losses(events));
      Run(NOTHING, events, Kind.Number).outcomes[i]
      == Kept(Point(h.StartTime(i), h.points[i].time,
                    NumberData(if h.SeenAsReset(i) then h.points[i].data.n
                               else SubtractValue(h.points[i].data.n, h.points[0].data.n))))
  {
    var h := FreshHistory(Pushes(events), Losses(events));
    FreshRun(events, Kind.Number);
    StartStays(h, i - 1);
    assert SameType(h.points[i].data, h.points[0].data);
  }

  lemma DifferenceOf(a: Data, b: Data)
    requires SameType(a, b) && Number(a) >= 0.0 && Number(b) >= 0.0
    ensures Number(Minus(a, b)) == Number(a) - Number(b)
  {
  }

  lemma LessIsLess(p: Point, d: Data)
    requires SameType(p.data, d) && Carries(p.data) && p.start == 0 && Before(0, p.time)
    ensures Resets(p, d) <==> Number(p.data) < Number(d)
  {
  }

  /** The closed form in numbers. */
  lemma InNumbers(h: History, i: nat)
    requires IsCounter(h) && NonNegative(h) && i < |h.points|
    ensures Out(h, i) == if i == 0 || h.SeenAsReset(i) then Value(h, i) else Value(h, i) - Value(h, 0)
    ensures i > 0 ==> (h.SeenAsReset(i) <==> Value(h, i) < if h.Lost(i) then Value(h, 0) else Out(h, i - 1))
  {
    if i > 0 {
      StartStays(h, i - 1);
      TypeStays(h, i - 1);
      assert SameType(h.points[i].data, h.points[0].data) && Carries(h.points[i].data);
      LessIsLess(h.points[i], h.Reference(i));
      assert Value(h, i) >= 0.0 && Value(h, 0) >= 0.0;
      DifferenceOf(h.points[i].data, h.points[0].data);
    }
  }

  lemma ShowsInNumbers(h: History, i: nat)
    requires IsCounter(h) && 0 < i < |h.points|
    ensures ShowsReset(h, i) <==> Value(h, i) < if h.Lost(i) then Value(h, 0) else Value(h, i - 1)
  {
    assert SameType(h.points[i].data, h.points[0].data) && SameType(h.points[i - 1].data, h.points[0].data);
    assert Carries(h.points[i].data);
    LessIsLess(h.points[i], h.points[0].data);
    LessIsLess(h.points[i], h.points[i - 1].data);
  }

  // ---------- which falls are noticed ----------

  predicate Falls(h: History, i: nat)
    requires i < |h.points|
  {
    i > 0 && Value(h, i) < Value(h, i - 1)
  }

  /** A fall that the comparison with the reduced value before it still shows. */
  predicate FallsDeep(h: History, i: nat)
    requires i < |h.points|
  {
    i > 0 && Value(h, i) < Value(h, i - 1) - Value(h, 0)
  }

  /** Unless the point before is lost, nothing but a fall is seen as a reset: the second
      point's always, later ones exactly when the point before was seen as a reset or the
      fall is deep. If it is lost, whatever is below the first value is seen. */
  lemma FallSeenIff(h: History, i: nat)
    requires IsCounter(h) && NonNegative(h) && 0 < i < |h.points|
    ensures h.SeenAsReset(i)
       <==> if h.Lost(i) then Value(h, i) < Value(h, 0)
            else Falls(h, i) && (i == 1 || h.SeenAsReset(i - 1) || FallsDeep(h, i))
  {
    InNumbers(h, i);
    InNumbers(h, i - 1);
    assert Value(h, 0) >= 0.0;
  }

  /** Seen or not, the point is exported like a reset: nothing is taken from it and its
      reset would begin at the start time in use. */
  predicate ExportedAlike(h: History, i: nat)
    requires 0 < i < |h.points|
  {
    Value(h, 0) == 0.0 && ResetPoint(h.points[i]).start == h.StartTime(i - 1)
  }

  /** After the second point a fall shows. */
  predicate FallShows(h: History, k: nat)
    requires 1 < k < |h.points|
  {
    if h.Lost(k) then Value(h, k) < Value(h, 0) || ExportedAlike(h, k)
    else ShowsReset(h, k - 1) || FallsDeep(h, k)
  }

  ghost predicate FallsShow(h: History) {
    forall k: nat :: 1 < k < |h.points| && Falls(h, k) ==> FallShows(h, k)
  }

  lemma {:induction false} SeenIffShows(h: History, i: nat)
    requires IsCounter(h) && NonNegative(h) && FallsShow(h) && 0 < i < |h.points|
    ensures h.SeenAsReset(i) <==> ShowsReset(h, i)
  {
    FallSeenIff(h, i);
    ShowsInNumbers(h, i);
    if i > 1 {
      SeenIffShows(h, i - 1);
      assert Falls(h, i) ==> FallShows(h, i);
    }
  }

  lemma SeenShows(h: History, i: nat)
    requires IsCounter(h) && NonNegative(h) && 0 < i < |h.points| && h.SeenAsReset(i)
    ensures ShowsReset(h, i)
  {
    FallSeenIff(h, i);
    ShowsInNumbers(h, i);
  }

  /** The fall is exported as a reset. */
  predicate ShownAt(h: History, i: nat)
    requires i < |h.points|
  {
    Falls(h, i) ==> h.ExportedPoint(i) == ResetPoint(h.points[i])
  }

  lemma ShownIff(h: History, i: nat)
    requires IsCounter(h) && NonNegative(h) && 0 < i < |h.points| && Falls(h, i)
    ensures ShownAt(h, i) <==> h.SeenAsReset(i) || (h.Lost(i) && ExportedAlike(h, i))
  {
    InNumbers(h, i);
    InNumbers(h, i - 1);
    StartStays(h, i - 1);
    assert Value(h, i) >= 0.0 && Value(h, 0) >= 0.0;
    assert SameType(h.points[i].data, h.points[0].data) && Carries(h.points[i].data);
  }

  lemma AllFallsShownIff(h: History)
    requires IsCounter(h) && NonNegative(h)
    ensures (forall i: nat :: i < |h.points| ==> ShownAt(h, i)) <==> FallsShow(h)
  {
    if FallsShow(h) {
      forall i: nat | i < |h.points| ensures ShownAt(h, i) {
        if Falls(h, i) {
          ShownIff(h, i);
          SeenIffShows(h, i);
          ShowsInNumbers(h, i);
          assert i > 1 ==> FallShows(h, i);
        }
      }
    } else {
      var k: nat :| 1 < k < |h.points| && Falls(h, k) && !FallShows(h, k);
      ShownIff(h, k);
      FallSeenIff(h, k);
      if h.SeenAsReset(k - 1) {
        SeenShows(h, k - 1);
      }
      assert !ShownAt(h, k);
    }
  }

  /** Every fall of the run is exported as a reset. */
  ghost predicate FallsDetected(outcomes: seq<Outcome>, h: History) {
    && |outcomes| == |h.points|
    && forall i: nat :: i < |h.points| && Falls(h, i) ==> outcomes[i] == Kept(ResetPoint(h.points[i]))
  }

  /** The documentation says that subsequent resets are detected. Every fall of a
      non-negative counter is exported as a reset exactly when every fall after the second
      point shows. */
  lemma AllFallsDetectedIff(events: seq<Event>)
    requires OfKind(Pushes(events), Kind.Number) && CounterSeries(Pushes(events)) && Timely(events)
    requires NonNegative(FreshHistory(Pushes(events), Losses(events)))
    ensures var h := FreshHistory(Pushes(events), Losses(events));
      FallsDetected(Run(NOTHING, events, Kind.Number).outcomes, h) <==> FallsShow(h)
  {
    var h, outcomes := FreshHistory(Pushes(events), Losses(events)), Run(NOTHING, events, Kind.Number).outcomes;
    FreshRun(events, Kind.Number);
    DetectedIffShown(h, outcomes);
    AllFallsShownIff(h);
  }

  lemma DetectedIffShown(h: History, outcomes: seq<Outcome>)
    requires Explains(h, outcomes)
    ensures FallsDetected(outcomes, h) <==> forall i: nat :: i < |h.points| ==> ShownAt(h, i)
  {
    forall i: nat | i < |h.points| && Falls(h, i)
      ensures outcomes[i] == Kept(ResetPoint(h.points[i])) <==> ShownAt(h, i)
    {
      assert outcomes[i] == Kept(h.ExportedPoint(i));
    }
  }

  // ---------- falls within one start time ----------

  /** A value below the one exported before it, under the same start time. */
  predicate FallsWithinStart(earlier: Point, later: Point) {
    later.start == earlier.start && Number(later.data) < Number(earlier.data)
  }

  /** A reset whose start time is the one in use before it, the first timestamp. */
  predicate SameStartAgain(h: History, i: nat)
    requires 0 < i < |h.points|
  {
    h.SeenAsReset(i) && ResetPoint(h.points[i]).start == h.StartTime(i - 1) && Value(h, i) < Out(h, i - 1)
  }

  /** The blind window, as wide as the first value unless the point before is lost: too high
      to be seen as a reset, too low to keep what is exported from falling. */
  predicate InBlindWindow(h: History, i: nat)
    requires 0 < i < |h.points|
  {
    var v, v0 := Value(h, i - 1), Value(h, 0);
    if h.SeenAsReset(i - 1) then (if h.Lost(i) then v0 else v) <= Value(h, i) < v + v0
    else (if h.Lost(i) then v0 else v - v0) <= Value(h, i) < v
  }

  lemma ExportedFallsIff(h: History, i: nat)
    requires IsCounter(h) && NonNegative(h) && 1 < i < |h.points|
    ensures !h.SeenAsReset(i) && Out(h, i) < Out(h, i - 1) <==> InBlindWindow(h, i)
  {
    InNumbers(h, i);
    InNumbers(h, i - 1);
    assert Value(h, 0) >= 0.0 && Value(h, i) >= 0.0;
  }

  lemma WithinStartIff(h: History, i: nat)
    requires IsCounter(h) && NonNegative(h) && 1 < i < |h.points|
    ensures FallsWithinStart(h.ExportedPoint(i - 1), h.ExportedPoint(i)) <==> SameStartAgain(h, i) || InBlindWindow(h, i)
  {
    ExportedFallsIff(h, i);
    InNumbers(h, i);
  }

  /** Over every timely run of a non-negative counter: an exported value falls within its
      start time exactly when the raw one is in the blind window, or it is a reset whose
      start time is the one in use. */
  lemma FallsWithinStartIff(events: seq<Event>, i: nat)
    requires OfKind(Pushes(events), Kind.Number) && CounterSeries(Pushes(events)) && Timely(events)
    requires NonNegative(FreshHistory(Pushes(events), Losses(events))) && 1 < i < |Pushes(events)|
    ensures var h, outcomes := FreshHistory(Pushes(events), Losses(events)), Run(NOTHING, events, Kind.Number).outcomes;
      && outcomes[i - 1].Kept? && outcomes[i].Kept?
      && (FallsWithinStart(outcomes[i - 1].point, outcomes[i].point) <==> SameStartAgain(h, i) || InBlindWindow(h, i))
  {
    FreshRun(events, Kind.Number);
    WithinStartIff(FreshHistory(Pushes(events), Losses(events)), i);
  }

  // ---------- raw values ----------

  /** Every value of the run is raw exactly when the first one is zero or every later one
      is a reset next to the raw value before it: for a run that loses no point, when the
      raw values strictly fall throughout. */
  lemma AllRawIff(events: seq<Event>)
    requires OfKind(Pushes(events), Kind.Number) && CounterSeries(Pushes(events)) && Timely(events)
    ensures var h, outcomes := FreshHistory(Pushes(events), Losses(events)), Run(NOTHING, events, Kind.Number).outcomes;
      RawSince(outcomes, h.points, 0)
      <==> Value(h, 0) == 0.0 || forall i: nat :: 0 < i < |h.points| ==> ShowsReset(h, i)
  {
    var h := FreshHistory(Pushes(events), Losses(events));
    FreshRun(events, Kind.Number);
    RawSinceMeans(h, Run(NOTHING, events, Kind.Number).outcomes, 0);
    CounterIsRawIff(h);
  }

  lemma CounterIsRawIff(h: History)
    requires IsCounter(h)
    ensures AllRaw(h, 0, |h.points|)
       <==> Value(h, 0) == 0.0 || forall i: nat :: 0 < i < |h.points| ==> ShowsReset(h, i)
  {
    RawSinceIff(h, 0, |h.points|);
    forall i: nat | 0 < i < |h.points|
      ensures Harmless(h, i) <==> Value(h, 0) == 0.0 || ShowsReset(h, i)
    {
      assert SameType(h.points[i].data, h.points[0].data) && Carries(h.points[i].data);
    }
  }

  /** 10, 30, 25: the fall to 25 is not seen; 20 and then 15 are exported under the start
      time of the 10. */
  lemma FallIsMissed()
    ensures ExportsTwo(ThreePushes(Integer(10), Integer(30), Integer(25)),
                       At(20, Integer(20)).(start := 10 * MILLISECOND), At(30, Integer(15)).(start := 10 * MILLISECOND))
  {
    ThreeOutcomes(Integer(10), Integer(30), Integer(25), Integer(20), Integer(15), 10);
  }
}
