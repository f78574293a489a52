/** Runs from a detected reset on: counts and buckets are exported raw, sums less the residue
    of the reset, every fall opens a new start time, and nothing falls within one. */
module AfterResets {
  import opened DataPoints
  import opened Normalization
  import opened Runs

  /** The count fell, or the sum of a summary did. */
  predicate Falls(a: Data, b: Data)
    requires a.Kind() == b.Kind()
  {
    b.Count() < a.Count() || (a.SummaryData? && b.Sum() < a.Sum())
  }

  /** What a reset leaves of the sum in the start slot. */
  function Residue(prior: Data): real {
    if prior.SummaryData? then 0.0 else prior.Sum()
  }

  /** A reset is exported as it came; from any other point only the residue is taken, and
      only from its sum. */
  predicate RawButForSum(exported: Point, raw: Point, residue: real) {
    exported.data
    == if exported.start == ResetPoint(raw).start then raw.data else raw.data.WithSum(raw.data.Sum() - residue)
  }

  /** Points of one series, comparable with each other, in time order. */
  ghost predicate OneShape(points: seq<Point>, kind: Kind) {
    && kind != Number && OfKind(points, kind)
    && (forall i, j :: 0 <= i < j < |points| ==>
          Comparable(points[i].data, points[j].data) && Before(points[i].time, points[j].time))
    && (forall i :: 0 < i < |points| ==> points[i].start == 0 && Before(0, points[i].time))
    && (points != [] ==> -TWO_63 + MILLISECOND <= AsTime(points[0].time))
  }

  /** The outcomes of a series whose first point is a detected reset. */
  ghost predicate Faithful(outcomes: seq<Outcome>, points: seq<Point>, kind: Kind, residue: real)
    requires |outcomes| == |points| && OneShape(points, kind)
  {
    && (kind == Summary ==> residue == 0.0)
    && (forall i :: 0 <= i < |points| ==>
          outcomes[i].Kept? && outcomes[i].point.time == points[i].time
          && RawButForSum(outcomes[i].point, points[i], residue))
    && (forall i :: 0 < i < |points| ==>
          FollowsStart(outcomes[i - 1].point.start, points[i - 1].data, outcomes[i].point.start, points[i]))
    && (points != [] ==> outcomes[0].point.start == ResetPoint(points[0]).start)
  }

  /** A fall opens a new start time; for a summary nothing else does. */
  predicate FollowsStart(lastStart: uint64, last: Data, start: uint64, p: Point)
    requires last.Kind() == p.data.Kind()
  {
    && (start == lastStart || start == ResetPoint(p).start)
    && (Falls(last, p.data) ==> start == ResetPoint(p).start)
    && (p.data.SummaryData? && start != lastStart ==> Falls(last, p.data))
  }

  ghost predicate HoldsZeroAndLast(s: Series, lastStart: uint64, last: Data, residue: real) {
    && s.start.Some? && s.previous.Some?
    && s.start.value.time == lastStart && s.start.value.data.Sum() == residue
    && Zeroed(s.start.value.data) && Comparable(last, s.start.value.data) && s.start.value.data.WellFormed()
    && s.previous.value.data.Kind() == last.Kind()
    && s.previous.value.data.Count() == last.Count()
    && (last.SummaryData? ==> s.previous.value.data == last)
  }

  lemma AfterResetStep(s: Series, lastStart: uint64, last: Data, p: Point, residue: real)
    requires Fits(s, p.data.Kind()) && p.data.WellFormed() && HoldsZeroAndLast(s, lastStart, last, residue)
    requires p.start == 0 && Before(0, p.time) && Comparable(p.data, last) && (p.data.SummaryData? ==> residue == 0.0)
    requires AsTime(lastStart) + MILLISECOND < AsTime(p.time)
    ensures var r := Decide(s, p);
      && r.outcome.Kept? && r.outcome.point.time == p.time && RawButForSum(r.outcome.point, p, residue)
      && FollowsStart(lastStart, last, r.outcome.point.start, p)
      && HoldsZeroAndLast(r.series, r.outcome.point.start, p.data, residue)
  {
    var z := s.start.value.data;
    ResetPointStart(p);
    SubtractZeroed(p.data, z);
    AfterResetIsZeroed(p.data, z);
  }

  lemma FirstReset(s: Series, p: Point)
    requires Fits(s, p.data.Kind()) && p.data.WellFormed() && !p.data.NumberData?
    requires s.start.Some? && Comparable(p.data, s.start.value.data) && DetectsReset(p, PreviousData(s))
    ensures Decide(s, p) == ResetAt(s, p)
    ensures HoldsZeroAndLast(ResetAt(s, p).series, ResetPoint(p).start, p.data, Residue(s.start.value.data))
    ensures FlagFits(ResetAt(s, p).series, false, 0) && FlagFits(ResetAt(s, p).series, true, 0)
  {
    AfterResetIsZeroed(p.data, s.start.value.data);
  }

  /** A start time is never later than a millisecond before the point it was given to. */
  lemma {:induction false} StartsAreOld(outcomes: seq<Outcome>, points: seq<Point>, kind: Kind, residue: real, i: nat)
    requires |outcomes| == |points| && OneShape(points, kind) && Faithful(outcomes, points, kind, residue)
    requires i < |points|
    ensures AsTime(outcomes[i].point.start) <= AsTime(points[i].time) - MILLISECOND
  {
    ResetTime(points, kind, i);
    if i > 0 {
      StartsAreOld(outcomes, points, kind, residue, i - 1);
    }
  }

  lemma ResetTime(points: seq<Point>, kind: Kind, i: nat)
    requires OneShape(points, kind) && i < |points|
    ensures AsTime(ResetPoint(points[i]).start) == AsTime(points[i].time) - MILLISECOND
  {
    assert i > 0 ==> Before(points[0].time, points[i].time);
    ResetPointStart(points[i]);
  }

  /** Within one start time neither the count nor a summary's sum ever falls. */
  lemma {:induction false} NothingFallsWithinAStart(
    outcomes: seq<Outcome>, points: seq<Point>, kind: Kind, residue: real, i: nat, j: nat)
    requires |outcomes| == |points| && OneShape(points, kind) && Faithful(outcomes, points, kind, residue)
    requires i <= j < |points|
    ensures AsTime(outcomes[i].point.start) <= AsTime(outcomes[j].point.start)
    ensures outcomes[i].point.start == outcomes[j].point.start ==>
      && outcomes[i].point.data.Count() <= outcomes[j].point.data.Count()
      && (kind == Summary ==> outcomes[i].point.data.Sum() <= outcomes[j].point.data.Sum())
  {
    if i < j {
      NothingFallsWithinAStart(outcomes, points, kind, residue, i, j - 1);
      StartsAreOld(outcomes, points, kind, residue, j - 1);
      ResetTime(points, kind, j);
    }
  }

  // ---------- whole runs ----------

  lemma FaithfulStep(outcomes: seq<Outcome>, points: seq<Point>, outcome: Outcome, p: Point, kind: Kind, residue: real)
    requires |outcomes| == |points| > 0 && OneShape(points + [p], kind) && OneShape(points, kind)
    requires Faithful(outcomes, points, kind, residue)
    requires outcome.Kept? && outcome.point.time == p.time
    requires p.data.Kind() == kind && RawButForSum(outcome.point, p, residue)
    requires FollowsStart(outcomes[|points| - 1].point.start, points[|points| - 1].data, outcome.point.start, p)
    ensures Faithful(outcomes + [outcome], points + [p], kind, residue)
  {
  }

  lemma OneShapePrefix(points: seq<Point>, p: Point, kind: Kind)
    requires OneShape(points + [p], kind) && points != []
    ensures OneShape(points, kind) && OfKind(points[1..], kind)
    ensures p.start == 0 && Before(0, p.time) && p.data.Kind() == kind && p.data.WellFormed()
    ensures Comparable(p.data, points[|points| - 1].data) && Before(points[|points| - 1].time, p.time)
  {
    var all := points + [p];
    assert all[|points|] == p;
    assert forall i :: 0 <= i < |points| ==> all[i] == points[i];
  }

  /** Faithful so far, and the caches are ready for the next point. */
  ghost predicate GoesOn(t: Trace, first: Point, points: seq<Point>, kind: Kind, residue: real)
    requires OneShape([first] + points, kind)
  {
    && |t.outcomes| == |points|
    && Faithful([Kept(ResetPoint(first))] + t.outcomes, [first] + points, kind, residue)
    && HoldsZeroAndLast(t.series, LastStart(t.outcomes, first), LastData(points, first), residue)
  }

  function LastStart(outcomes: seq<Outcome>, first: Point): uint64 {
    if outcomes == [] then ResetPoint(first).start
    else if outcomes[|outcomes| - 1].Kept? then outcomes[|outcomes| - 1].point.start else 0
  }

  function LastData(points: seq<Point>, first: Point): Data {
    if points == [] then first.data else points[|points| - 1].data
  }

  lemma GoesOnPush(t: Trace, first: Point, points: seq<Point>, p: Point, kind: Kind, residue: real)
    requires OneShape([first] + (points + [p]), kind) && OneShape([first] + points, kind)
    requires GoesOn(t, first, points, kind, residue) && Fits(t.series, p.data.Kind()) && p.data.WellFormed()
    ensures var r := Decide(t.series, p);
      GoesOn(Trace(r.series, t.outcomes + [r.outcome]), first, points + [p], kind, residue)
  {
    var all, outcomes := [first] + points, [Kept(ResetPoint(first))] + t.outcomes;
    assert all + [p] == [first] + (points + [p]);
    OneShapePrefix(all, p, kind);
    StartsAreOld(outcomes, all, kind, residue, |points|);
    AfterResetStep(t.series, LastStart(t.outcomes, first), LastData(points, first), p, residue);
    var r := Decide(t.series, p);
    FaithfulStep(outcomes, all, r.outcome, p, kind, residue);
    assert outcomes + [r.outcome] == [Kept(ResetPoint(first))] + (t.outcomes + [r.outcome]);
  }

  /** From any state of the caches: once a reset at first is detected, everything pushed
      in a lively run is kept and Faithful, with the sum the reset left as its residue. */
  lemma {:induction false} AfterResetRun(s: Series, first: Point, events: seq<Event>, kind: Kind)
    requires Fits(s, kind) && kind == first.data.Kind() && OneShape([first] + Pushes(events), kind) && Lively(events)
    requires OfKind(Pushes(events), kind) && first.data.WellFormed()
    requires s.start.Some? && Comparable(first.data, s.start.value.data) && DetectsReset(first, PreviousData(s))
    ensures Decide(s, first).outcome == Kept(ResetPoint(first))
    ensures GoesOn(Run(Decide(s, first).series, events, kind), first, Pushes(events), kind, Residue(s.start.value.data))
  {
    FirstReset(s, first);
    var start := ResetAt(s, first).series;
    if events == [] {
      assert [Kept(ResetPoint(first))] + [] == [Kept(ResetPoint(first))];
    } else {
      var prefix, e := RunStep(start, events, kind);
      assert prefix == events[..|events| - 1];
      match e
      case Tick(_, _) =>
        AfterResetRun(s, first, prefix, kind);
        LivelyTick(start, prefix, e, kind);
      case Push(p) =>
        assert [first] + Pushes(events) == [first] + Pushes(prefix) + [p];
        OneShapePrefix([first] + Pushes(prefix), p, kind);
        AfterResetRun(s, first, prefix, kind);
        GoesOnPush(Run(start, prefix, kind), first, Pushes(prefix), p, kind, Residue(s.start.value.data));
    }
  }

  /** "It doesn't modify values after a reset": the next point that is not a reset itself
      keeps its value exactly when the start point that the reset overwrote had left
      nothing to subtract. */
  lemma RawAfterResetIff(s: Series, first: Point, p: Point)
    requires Fits(s, p.data.Kind()) && p.data.WellFormed() && first.data.WellFormed() && s.start.Some?
    requires Comparable(p.data, first.data) && Comparable(first.data, s.start.value.data)
    requires !DetectsReset(p, PreviousData(ResetAt(s, first).series)) && Before(ResetPoint(first).start, p.time)
    ensures var outcome := Decide(ResetAt(s, first).series, p).outcome;
      && outcome.Kept? && outcome.point.start == ResetPoint(first).start && outcome.point.time == p.time
      && (outcome.point.data == p.data <==> NoResidue(p.data, s.start.value.data))
  {
    UntouchedAfterResetIff(p.data, first.data, s.start.value.data);
  }
}
