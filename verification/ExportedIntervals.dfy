/** The time intervals a series exports, over every run. */
module ExportedIntervals {
  import opened DataPoints
  import opened Normalization
  import opened Runs

  /** Timestamps rise by at least a millisecond from point to point. */
  ghost predicate Rising(points: seq<Point>) {
    forall i, j :: 0 <= i < j < |points| ==> AsTime(points[i].time) + MILLISECOND <= AsTime(points[j].time)
  }

  /** Two cumulative intervals of one series: the same start, or one after the other. */
  predicate Continues(earlier: Point, later: Point) {
    later.start == earlier.start || AsTime(earlier.time) <= AsTime(later.start)
  }

  /** The point had a start time of its own and was exported as it came. */
  predicate PassedThrough(outcome: Outcome, raw: Point) {
    outcome == Kept(raw) && !StartUnknown(raw)
  }

  function StartTime(s: Series): Option<uint64> {
    if s.start.Some? then Some(s.start.value.time) else None
  }

  /** All that one decision says about times. */
  predicate Timing(before: Option<uint64>, p: Point, outcome: Outcome, after: Option<uint64>) {
    match outcome
    case Dropped => after == Some(p.time) || (before.Some? && after == before)
    case Kept(q) =>
      q.time == p.time &&
      if after.None? then before.None? && PassedThrough(outcome, p)
      else q.start == after.value
           && (after.value == ResetPoint(p).start || (after == before && Before(after.value, p.time)))
  }

  lemma DecisionTiming(s: Series, p: Point)
    requires Fits(s, p.data.Kind()) && p.data.WellFormed()
    ensures Timing(StartTime(s), p, Decide(s, p).outcome, StartTime(Decide(s, p).series))
  {
  }

  /** The start point lies within what has been pushed, and nothing kept reaches beyond it
      except what has the same start. */
  ghost predicate StartInOrder(start: Option<uint64>, outcomes: seq<Outcome>, points: seq<Point>)
    requires |outcomes| == |points|
  {
    start.Some? ==>
      && points != []
      && AsTime(start.value) <= AsTime(points[|points| - 1].time)
      && forall i :: 0 <= i < |outcomes| && outcomes[i].Kept? ==>
           start.value == outcomes[i].point.start || AsTime(points[i].time) <= AsTime(start.value)
  }

  ghost predicate KeptInOrder(outcomes: seq<Outcome>, points: seq<Point>)
    requires |outcomes| == |points|
  {
    && (forall i :: 0 <= i < |outcomes| && outcomes[i].Kept? ==>
          outcomes[i].point.time == points[i].time && Before(outcomes[i].point.start, outcomes[i].point.time))
    && (forall i, j :: 0 <= i < j < |outcomes| && outcomes[i].Kept? && outcomes[j].Kept? ==>
          Continues(outcomes[i].point, outcomes[j].point) || PassedThrough(outcomes[j], points[j]))
  }

  /** The new point's start is not after the point, and at or after every point before it
      unless it is the start from before. */
  lemma NewStart(before: Option<uint64>, points: seq<Point>, p: Point, outcome: Outcome, after: Option<uint64>)
    requires Rising(points + [p]) && Timing(before, p, outcome, after) && after.Some?
    requires points == [] ==> after == Some(p.time)
    requires before.Some? ==> points != [] && AsTime(before.value) <= AsTime(points[|points| - 1].time)
    ensures AsTime(after.value) <= AsTime(p.time)
    ensures after == before || forall i :: 0 <= i < |points| ==> AsTime(points[i].time) <= AsTime(after.value)
    ensures outcome.Kept? && points != [] ==> Before(after.value, p.time)
  {
    forall i | 0 <= i < |points|
      ensures AsTime(points[i].time) + MILLISECOND <= AsTime(p.time)
    {
      assert (points + [p])[i] == points[i] && (points + [p])[|points|] == p;
    }
    if points != [] {
      assert AsTime(points[0].time) + MILLISECOND <= AsTime(p.time);
      ResetPointStart(p);
    }
  }

  lemma StepInOrder(before: Option<uint64>, outcomes: seq<Outcome>, points: seq<Point>,
                    p: Point, outcome: Outcome, after: Option<uint64>)
    requires |outcomes| == |points| && Rising(points + [p])
    requires StartInOrder(before, outcomes, points) && KeptInOrder(outcomes, points)
    requires Timing(before, p, outcome, after)
    requires points == [] ==> before == None && (after == None || (after == Some(p.time) && outcome == Dropped))
    ensures StartInOrder(after, outcomes + [outcome], points + [p])
    ensures KeptInOrder(outcomes + [outcome], points + [p])
  {
    if after.Some? {
      NewStart(before, points, p, outcome, after);
    }
  }

  lemma RisingPrefix(points: seq<Point>, n: nat)
    requires Rising(points) && n <= |points|
    ensures Rising(points[..n])
  {
  }

  ghost predicate InOrder(t: Trace, points: seq<Point>) {
    && |t.outcomes| == |points|
    && StartInOrder(StartTime(t.series), t.outcomes, points) && KeptInOrder(t.outcomes, points)
    && (points == [] ==> t.series == NOTHING)
  }

  lemma PushInOrder(t: Trace, points: seq<Point>, p: Point)
    requires InOrder(t, points) && Rising(points + [p]) && Fits(t.series, p.data.Kind()) && p.data.WellFormed()
    ensures var r := Decide(t.series, p);
      InOrder(Trace(r.series, t.outcomes + [r.outcome]), points + [p])
  {
    var r := Decide(t.series, p);
    DecisionTiming(t.series, p);
    StepInOrder(StartTime(t.series), t.outcomes, points, p, r.outcome, StartTime(r.series));
  }

  lemma TickInOrder(t: Trace, points: seq<Point>, e: Event)
    requires InOrder(t, points) && e.Tick?
    ensures InOrder(Trace(CollectSeries(t.series, e), t.outcomes), points)
  {
  }

  /** Every mixture of points and ticks, whatever the start times of the points: each kept
      point starts before it ends, and continues every kept point before it unless it was
      exported as it came, with a start time of its own. */
  lemma {:induction false} RunInOrder(events: seq<Event>, kind: Kind)
    requires OfKind(Pushes(events), kind) && Rising(Pushes(events))
    ensures InOrder(Run(NOTHING, events, kind), Pushes(events))
  {
    if events != [] {
      var prefix, e := RunStep(NOTHING, events, kind);
      RisingPrefix(Pushes(events), |Pushes(prefix)|);
      assert Pushes(events)[..|Pushes(prefix)|] == Pushes(prefix);
      RunInOrder(prefix, kind);
      if e.Tick? {
        TickInOrder(Run(NOTHING, prefix, kind), Pushes(prefix), e);
      } else {
        PushInOrder(Run(NOTHING, prefix, kind), Pushes(prefix), e.p);
      }
    }
  }

  /** The series the normalizer is documented for: points without a usable start time.
      What it exports are intervals that share a start or do not overlap. */
  lemma UnknownStartsGiveDisjointIntervals(events: seq<Event>, kind: Kind)
    requires OfKind(Pushes(events), kind) && Rising(Pushes(events))
    requires forall i :: 0 <= i < |Pushes(events)| ==> StartUnknown(Pushes(events)[i])
    ensures var outcomes := Run(NOTHING, events, kind).outcomes;
      && (forall i :: 0 <= i < |outcomes| && outcomes[i].Kept? ==>
            Before(outcomes[i].point.start, outcomes[i].point.time))
      && (forall i, j :: 0 <= i < j < |outcomes| && outcomes[i].Kept? && outcomes[j].Kept? ==>
            Continues(outcomes[i].point, outcomes[j].point))
  {
    RunInOrder(events, kind);
  }

  /** The millisecond is needed: a reset point continues the point before it exactly when
      the two are at least that far apart. */
  lemma ResetContinuesIff(earlier: Point, p: Point)
    requires -TWO_63 + MILLISECOND <= AsTime(p.time) && earlier.start != ResetPoint(p).start
    ensures Continues(earlier, ResetPoint(p)) <==> AsTime(earlier.time) + MILLISECOND <= AsTime(p.time)
  {
    ResetPointStart(p);
  }
}
