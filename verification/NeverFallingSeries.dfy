/** Series that never fall: what the normalizer exports for them, exactly how many ticks it
    bears, and exactly when it notices that one of them falls for the first time. */
module NeverFallingSeries {
  import opened DataPoints
  import opened Normalization
  import opened Runs
  import opened ExponentialHistograms
  import opened Histograms

  predicate NonNegative(d: Data) {
    match d
    case NumberData(n) => n.AsInt() >= 0 && n.AsDouble() >= 0.0
    case _ => d.Sum() >= 0.0
  }

  /** a <= b in every component the reset test reads. */
  predicate NotAbove(a: Data, b: Data) {
    && Comparable(a, b)
    && match a
       case NumberData(n) =>
         (match n
          case Unset => b.n.Unset?
          case IntValue(i) => b.n.IntValue? && i <= b.n.i
          case DoubleValue(d) => b.n.DoubleValue? && d <= b.n.d)
       case _ => a.Count() <= b.Count() && a.Sum() <= b.Sum()
  }

  ghost predicate NeverFalls(points: seq<Point>) {
    && (forall i :: 0 <= i < |points| ==> points[i].start == 0)
    && (forall i, j :: 0 <= i < j < |points| ==>
          Before(points[i].time, points[j].time) && NotAbove(points[i].data, points[j].data))
    && (points != [] ==> Before(0, points[0].time) && NonNegative(points[0].data))
  }

  /** p as it is exported when first is the start point. */
  function Relative(first: Point, p: Point): Outcome
    requires Comparable(p.data, first.data) && p.data.WellFormed() && first.data.WellFormed()
  {
    Kept(Point(first.time, p.time, SubtractData(p.data, first.data)))
  }

  /** What the normalizer promises for such a series: the first point is dropped, every
      later one is exported relative to it. */
  ghost predicate RelativeToFirst(outcomes: seq<Outcome>, points: seq<Point>, kind: Kind)
    requires OfKind(points, kind) && NeverFalls(points)
  {
    && |outcomes| == |points|
    && (points != [] ==> outcomes[0] == Dropped)
    && forall i :: 0 < i < |points| ==> outcomes[i] == Relative(points[0], points[i])
  }

  /** The data in the previous slot: already reduced by the first point. */
  ghost function LastExported(points: seq<Point>, kind: Kind): Data
    requires points != [] && OfKind(points, kind) && NeverFalls(points)
  {
    if |points| == 1 then points[0].data
    else SubtractData(points[|points| - 1].data, points[0].data)
  }

  /** Even though the previous slot holds a reduced point, no reset is seen. */
  lemma NotBelowLastExported(p: Data, last: Data, first: Data)
    requires NonNegative(first) && NotAbove(first, last) && NotAbove(last, p)
    requires first.WellFormed() && last.WellFormed() && p.WellFormed()
    ensures !LessThan(p, last) && !LessThan(p, SubtractData(last, first))
  {
  }

  /** What the caches hold after a timely run: the start cache the first point, unless it
      has been collected since the last one; the previous cache what was exported last. */
  ghost predicate HoldsFirst(s: Series, points: seq<Point>, kind: Kind, startTicks: nat, previousTicks: nat)
    requires OfKind(points, kind) && NeverFalls(points)
  {
    if points == [] then s == NOTHING
    else if startTicks > 1 then s.start.None?
    else
      && s.start == Some(Slot(points[0].time, points[0].data, startTicks == 0))
      && s.previous
      == if previousTicks > 1 then None
         else Some(Slot(points[|points| - 1].time, LastExported(points, kind), previousTicks == 0))
  }

  lemma NeverFallsPrefix(points: seq<Point>, p: Point, kind: Kind)
    requires OfKind(points + [p], kind) && NeverFalls(points + [p])
    ensures OfKind(points, kind) && NeverFalls(points)
    ensures p.start == 0 && p.data.Kind() == kind && p.data.WellFormed()
    ensures points != [] ==>
      && Before(points[0].time, p.time) && Before(0, p.time)
      && NonNegative(points[0].data) && NotAbove(points[0].data, p.data)
      && NotAbove(points[|points| - 1].data, p.data)
      && (|points| > 1 ==> NotAbove(points[0].data, points[|points| - 1].data))
    ensures points == [] ==> Before(0, p.time)
  {
    var all := points + [p];
    assert all[|points|] == p;
    assert forall i :: 0 <= i < |points| ==> all[i] == points[i];
  }

  lemma NeverFallsStep(s: Series, points: seq<Point>, p: Point, kind: Kind, startTicks: nat, previousTicks: nat)
    requires OfKind(points + [p], kind) && NeverFalls(points + [p])
    requires OfKind(points, kind) && NeverFalls(points) && Fits(s, kind) && p.data.Kind() == kind && p.data.WellFormed()
    requires HoldsFirst(s, points, kind, startTicks, previousTicks)
    ensures points != [] ==> Comparable(p.data, points[0].data)
    ensures points == [] || startTicks <= 1 ==>
      && HoldsFirst(Decide(s, p).series, points + [p], kind, 0, 0)
      && Decide(s, p).outcome == (if points == [] then Dropped else Relative(points[0], p))
    ensures points != [] && startTicks > 1 ==> Decide(s, p).outcome == Dropped
  {
    NeverFallsPrefix(points, p, kind);
    if points != [] {
      assert !LessThan(p.data, points[0].data);
      if |points| > 1 {
        NotBelowLastExported(p.data, points[|points| - 1].data, points[0].data);
      }
    }
  }

  lemma NeverFallsTick(s: Series, e: Event, points: seq<Point>, kind: Kind, startTicks: nat, previousTicks: nat)
    requires OfKind(points, kind) && NeverFalls(points) && e.Tick?
    requires HoldsFirst(s, points, kind, startTicks, previousTicks)
    ensures HoldsFirst(CollectSeries(s, e), points, kind,
                       startTicks + if e.start then 1 else 0, previousTicks + if e.previous then 1 else 0)
  {
  }

  lemma RelativeSnoc(outcomes: seq<Outcome>, points: seq<Point>, outcome: Outcome, p: Point, kind: Kind)
    requires OfKind(points + [p], kind) && NeverFalls(points + [p])
    requires OfKind(points, kind) && NeverFalls(points) && RelativeToFirst(outcomes, points, kind)
    requires points != [] ==> Comparable(p.data, points[0].data) && p.data.WellFormed()
    requires outcome == if points == [] then Dropped else Relative(points[0], p)
    ensures RelativeToFirst(outcomes + [outcome], points + [p], kind)
  {
  }

  lemma RelativePush(t: Trace, points: seq<Point>, p: Point, kind: Kind, startTicks: nat, previousTicks: nat)
    requires OfKind(points + [p], kind) && NeverFalls(points + [p])
    requires OfKind(points, kind) && NeverFalls(points) && Fits(t.series, kind)
    requires p.data.Kind() == kind && p.data.WellFormed()
    requires HoldsFirst(t.series, points, kind, startTicks, previousTicks) && RelativeToFirst(t.outcomes, points, kind)
    requires points != [] ==> startTicks <= 1
    ensures HoldsFirst(Decide(t.series, p).series, points + [p], kind, 0, 0)
    ensures RelativeToFirst(t.outcomes + [Decide(t.series, p).outcome], points + [p], kind)
  {
    NeverFallsStep(t.series, points, p, kind, startTicks, previousTicks);
    RelativeSnoc(t.outcomes, points, Decide(t.series, p).outcome, p, kind);
  }

  /** What a timely run keeps. */
  ghost predicate Exports(t: Trace, points: seq<Point>, kind: Kind, startTicks: nat, previousTicks: nat)
    requires OfKind(points, kind) && NeverFalls(points)
  {
    && HoldsFirst(t.series, points, kind, startTicks, previousTicks)
    && RelativeToFirst(t.outcomes, points, kind)
  }

  lemma ExportsTick(prefix: seq<Event>, e: Event, events: seq<Event>, kind: Kind)
    requires events == prefix + [e] && e.Tick?
    requires OfKind(Pushes(prefix), kind) && NeverFalls(Pushes(prefix))
    requires Exports(Run(NOTHING, prefix, kind), Pushes(prefix), kind, TicksSince(prefix, false), TicksSince(prefix, true))
    requires OfKind(Pushes(events), kind) && Pushes(events) == Pushes(prefix)
    requires Run(NOTHING, events, kind).outcomes == Run(NOTHING, prefix, kind).outcomes
    requires Run(NOTHING, events, kind).series == CollectSeries(Run(NOTHING, prefix, kind).series, e)
    ensures Exports(Run(NOTHING, events, kind), Pushes(events), kind, TicksSince(events, false), TicksSince(events, true))
  {
    assert events[..|events| - 1] == prefix;
    NeverFallsTick(Run(NOTHING, prefix, kind).series, e, Pushes(prefix), kind,
                   TicksSince(prefix, false), TicksSince(prefix, true));
  }

  lemma {:induction false} NeverFallsRun(events: seq<Event>, kind: Kind)
    requires OfKind(Pushes(events), kind) && NeverFalls(Pushes(events)) && Timely(events)
    ensures Exports(Run(NOTHING, events, kind), Pushes(events), kind,
                    TicksSince(events, false), TicksSince(events, true))
    decreases |events|, 0
  {
    if events != [] {
      var prefix, e := RunStep(NOTHING, events, kind);
      assert prefix == events[..|events| - 1];
      if e.Push? {
        NeverFallsPush(prefix, e.p, events, kind);
      } else {
        NeverFallsRun(prefix, kind);
        ExportsTick(prefix, e, events, kind);
      }
    }
  }

  lemma {:induction false} NeverFallsPush(prefix: seq<Event>, p: Point, events: seq<Event>, kind: Kind)
    requires events == prefix + [Push(p)] && Timely(events)
    requires OfKind(Pushes(events), kind) && NeverFalls(Pushes(events)) && OfKind(Pushes(prefix), kind)
    requires Pushes(events) == Pushes(prefix) + [p] && p.data.Kind() == kind && p.data.WellFormed()
    requires var t := Run(NOTHING, prefix, kind);
      Run(NOTHING, events, kind) == Trace(Decide(t.series, p).series, t.outcomes + [Decide(t.series, p).outcome])
    ensures Exports(Run(NOTHING, events, kind), Pushes(events), kind, 0, 0)
    decreases |prefix|, 1
  {
    assert events[..|events| - 1] == prefix;
    NeverFallsPrefix(Pushes(prefix), p, kind);
    NeverFallsRun(prefix, kind);
    RelativePush(Run(NOTHING, prefix, kind), Pushes(prefix), p, kind,
                 TicksSince(prefix, false), TicksSince(prefix, true));
  }

  lemma RelativePrefix(outcomes: seq<Outcome>, points: seq<Point>, outcome: Outcome, p: Point, kind: Kind)
    requires OfKind(points + [p], kind) && NeverFalls(points + [p]) && |outcomes| == |points|
    requires OfKind(points, kind) && NeverFalls(points)
    requires RelativeToFirst(outcomes + [outcome], points + [p], kind)
    ensures RelativeToFirst(outcomes, points, kind)
    ensures points != [] ==> outcome.Kept?
  {
    var all, more := points + [p], outcomes + [outcome];
    assert all[|points|] == p && more[|points|] == outcome;
    assert forall i :: 0 <= i < |points| ==> all[i] == points[i] && more[i] == outcomes[i];
  }

  /** Over every mixture of points and ticks: the series is exported relative to its first
      point exactly when every later point finds the start point. */
  lemma {:induction false} RelativeIffTimely(events: seq<Event>, kind: Kind)
    requires OfKind(Pushes(events), kind) && NeverFalls(Pushes(events))
    ensures RelativeToFirst(Run(NOTHING, events, kind).outcomes, Pushes(events), kind) <==> Timely(events)
  {
    if Timely(events) {
      NeverFallsRun(events, kind);
    } else if RelativeToFirst(Run(NOTHING, events, kind).outcomes, Pushes(events), kind) {
      var prefix, e := RunStep(NOTHING, events, kind);
      assert prefix == events[..|events| - 1];
      if e.Push? {
        var points, t := Pushes(prefix), Run(NOTHING, prefix, kind);
        NeverFallsPrefix(points, e.p, kind);
        RelativePrefix(t.outcomes, points, Decide(t.series, e.p).outcome, e.p, kind);
        RelativeIffTimely(prefix, kind);
        NeverFallsRun(prefix, kind);
        NeverFallsStep(t.series, points, e.p, kind, TicksSince(prefix, false), TicksSince(prefix, true));
      } else {
        RelativeIffTimely(prefix, kind);
      }
    }
  }

  lemma OutcomeOf(events: seq<Event>, kind: Kind, i: nat)
    requires OfKind(Pushes(events), kind) && NeverFalls(Pushes(events)) && Timely(events)
    requires 0 < i < |Pushes(events)|
    ensures var points := Pushes(events);
      && Comparable(points[i].data, points[0].data)
      && Run(NOTHING, events, kind).outcomes[i]
      == Kept(Point(points[0].time, points[i].time, SubtractData(points[i].data, points[0].data)))
  {
    NeverFallsRun(events, kind);
  }

  lemma IntDifference(a: int64, b: int64)
    requires 0 <= b
    ensures SubtractData(NumberData(IntValue(a)), NumberData(IntValue(b)))
         == NumberData(IntValue(if -TWO_63 <= a - b then a - b else a - b + TWO_64))
  {
  }

  ghost predicate IntSeries(points: seq<Point>) {
    forall i :: 0 <= i < |points| ==> points[i].data.NumberData? && points[i].data.n.IntValue?
  }

  /** Integer counters: every point after the first is exported as the raw value less the
      first one, with the first timestamp as its start. */
  lemma CountersAreRelative(events: seq<Event>, i: nat)
    requires OfKind(Pushes(events), Number) && NeverFalls(Pushes(events)) && Timely(events)
    requires IntSeries(Pushes(events)) && 0 < i < |Pushes(events)|
    ensures var points := Pushes(events);
      Run(NOTHING, events, Number).outcomes[i]
      == Kept(Point(points[0].time, points[i].time,
                    NumberData(IntValue(points[i].data.n.i - points[0].data.n.i))))
  {
    var points := Pushes(events);
    OutcomeOf(events, Number, i);
    assert NotAbove(points[0].data, points[i].data);
    IntDifference(points[i].data.n.i, points[0].data.n.i);
  }

  /** Summaries: count and sum are exported as the raw ones less the first ones. */
  lemma SummariesAreRelative(events: seq<Event>, i: nat)
    requires OfKind(Pushes(events), Summary) && NeverFalls(Pushes(events)) && Timely(events)
    requires 0 < i < |Pushes(events)|
    ensures var points, outcome := Pushes(events), Run(NOTHING, events, Summary).outcomes[i];
      && outcome.Kept? && outcome.point.start == points[0].time && outcome.point.time == points[i].time
      && points[i].data.SummaryData? && points[0].data.SummaryData? && outcome.point.data.SummaryData?
      && outcome.point.data.s.count == points[i].data.s.count - points[0].data.s.count
      && outcome.point.data.s.sum == points[i].data.s.sum - points[0].data.s.sum
  {
    var points := Pushes(events);
    OutcomeOf(events, Summary, i);
    assert NotAbove(points[0].data, points[i].data);
    SummaryDifference(points[i].data, points[0].data);
  }

  lemma SummaryDifference(a: Data, b: Data)
    requires a.SummaryData? && b.SummaryData? && NotAbove(b, a)
    ensures SubtractData(a, b) == SummaryData(SummaryFields(a.s.count - b.s.count, a.s.sum - b.s.sum))
  {
  }

  ghost predicate GrowingExponentials(points: seq<Point>) {
    && (forall i :: 0 <= i < |points| ==> points[i].data.ExponentialData?)
    && (forall i :: 0 <= i < |points| ==>
          && EncodablePoint(points[i].data.e) && Balanced(points[i].data.e)
          && DominatesPoint(points[i].data.e, points[0].data.e))
  }

  /** d is the exact difference, it is balanced, and its exported buckets add up. */
  ghost predicate ExactExport(d: ExponentialFields, a: ExponentialFields, b: ExponentialFields) {
    && Balanced(d) && d.count == a.count - b.count && d.zeroCount == a.zeroCount - b.zeroCount
    && ExactDifference(d.positive, a.positive, b.positive)
    && ExactDifference(d.negative, a.negative, b.negative)
    && (d.count < TWO_63 ==> TotalSigned(ExportedCounts(d)) == d.count)
  }

  lemma ExactExportOf(a: ExponentialFields, b: ExponentialFields)
    requires EncodablePoint(a) && EncodablePoint(b) && Balanced(a) && Balanced(b) && DominatesPoint(a, b)
    ensures var d := SubtractData(ExponentialData(a), ExponentialData(b)); d.ExponentialData? && ExactExport(d.e, a, b)
  {
    SubtractionKeepsBalance(a, b);
    ExportedCountsAddUpIff(SubtractData(ExponentialData(a), ExponentialData(b)).e);
  }

  /** Exponential histograms that only grow: what is exported is the exact difference to
      the first point at every absolute bucket index, it is balanced, and its exported
      buckets add up to its exported count. */
  lemma ExponentialsStayExact(events: seq<Event>, i: nat)
    requires OfKind(Pushes(events), ExponentialHistogram) && NeverFalls(Pushes(events)) && Timely(events)
    requires GrowingExponentials(Pushes(events)) && 0 < i < |Pushes(events)|
    ensures var outcome := Run(NOTHING, events, ExponentialHistogram).outcomes[i];
      && outcome.Kept? && outcome.point.data.ExponentialData?
      && ExactExport(outcome.point.data.e, Pushes(events)[i].data.e, Pushes(events)[0].data.e)
  {
    OutcomeOf(events, ExponentialHistogram, i);
    ExactExportOf(Pushes(events)[i].data.e, Pushes(events)[0].data.e);
  }

  /** Explicit-bucket histograms: count and buckets are exported as exact differences,
      without wrap-around, exactly when the first point's buckets are dominated. */
  lemma HistogramsStayExactIff(events: seq<Event>, i: nat)
    requires OfKind(Pushes(events), Histogram) && NeverFalls(Pushes(events)) && Timely(events)
    requires 0 < i < |Pushes(events)|
    ensures var points, outcome := Pushes(events), Run(NOTHING, events, Histogram).outcomes[i];
      && outcome.Kept? && outcome.point.data.HistogramData?
      && points[i].data.HistogramData? && points[0].data.HistogramData?
      && (ExactHistogram(outcome.point.data.h, points[i].data.h, points[0].data.h)
          <==> DominatesHistogram(points[i].data.h, points[0].data.h))
  {
    var points := Pushes(events);
    OutcomeOf(events, Histogram, i);
    HistogramIsExactIff(points[i].data.h, points[0].data.h);
  }

  // ---------- the first fall ----------

  /** What the reset test compares with: the last exported data, or the first point if the
      previous one has been collected. */
  ghost function Reference(events: seq<Event>, kind: Kind): Data
    requires OfKind(Pushes(events), kind) && NeverFalls(Pushes(events)) && Pushes(events) != []
  {
    if TicksSince(events, true) > 1 then Pushes(events)[0].data else LastExported(Pushes(events), kind)
  }

  /** The next point of a series that never fell so far, after any number of ticks of either
      cache: dropped if the start point is gone, otherwise a reset exactly when it is below
      the reference. */
  lemma FirstFall(events: seq<Event>, p: Point, kind: Kind)
    requires OfKind(Pushes(events), kind) && NeverFalls(Pushes(events)) && Timely(events)
    requires var points := Pushes(events);
      && points != [] && p.start == 0 && p.data.WellFormed() && Comparable(p.data, points[0].data)
      && Before(0, p.time) && Before(points[0].time, p.time)
    ensures var points := Pushes(events);
      Decide(Run(NOTHING, events, kind).series, p).outcome
      == if TicksSince(events, false) > 1 then Dropped
         else Kept(if LessThan(p.data, Reference(events, kind)) then ResetPoint(p)
                   else Point(points[0].time, p.time, SubtractData(p.data, points[0].data)))
  {
    NeverFallsRun(events, kind);
  }

  lemma CounterReference(events: seq<Event>)
    requires OfKind(Pushes(events), Number) && NeverFalls(Pushes(events)) && IntSeries(Pushes(events))
    requires |Pushes(events)| >= 2 && TicksSince(events, true) <= 1
    ensures var points := Pushes(events); var first, last := points[0].data.n.i, points[|points| - 1].data.n.i;
      Reference(events, Number) == NumberData(IntValue(last - first)) && 0 <= first <= last
  {
    var points := Pushes(events);
    assert NotAbove(points[0].data, points[|points| - 1].data);
    IntDifference(points[|points| - 1].data.n.i, points[0].data.n.i);
  }

  lemma ReducedFall(p: Point, start: Point, first: int64, v: int64, last: int64)
    requires p.data == NumberData(IntValue(v)) && start.data == NumberData(IntValue(first))
    requires 0 <= first <= last && v < last
    ensures var q := if LessThan(p.data, NumberData(IntValue(last - first))) then ResetPoint(p)
                     else Point(start.time, p.time, SubtractData(p.data, start.data));
      && (q == ResetPoint(p) <==> v < last - first)
      && (v >= last - first ==> q == Point(start.time, p.time, NumberData(IntValue(v - first))))
  {
    IntDifference(v, first);
  }

  /** The documentation says that subsequent resets are detected. For an integer counter
      that has been exported at least once, a fall to v is detected exactly when v is
      below the last value less the first one. Any other fall is exported under the old
      start time, with a value below the one exported before it. */
  lemma {:induction false} FirstFallDetectedIff(events: seq<Event>, time: uint64, v: int64)
    requires OfKind(Pushes(events), Number) && NeverFalls(Pushes(events)) && Timely(events)
    requires TicksSince(events, false) <= 1 && TicksSince(events, true) <= 1
    requires IntSeries(Pushes(events)) && |Pushes(events)| >= 2
    requires var points := Pushes(events);
      && Before(0, time) && Before(points[0].time, time) && v < points[|points| - 1].data.n.i
    ensures var points := Pushes(events);
      var first, last := points[0].data.n.i, points[|points| - 1].data.n.i;
      var p := Point(0, time, NumberData(IntValue(v)));
      var outcome := Decide(Run(NOTHING, events, Number).series, p).outcome;
      && (outcome == Kept(ResetPoint(p)) <==> v < last - first)
      && (v >= last - first ==> outcome == Kept(Point(points[0].time, time, NumberData(IntValue(v - first)))))
  {
    var points, p := Pushes(events), Point(0, time, NumberData(IntValue(v)));
    FirstFall(events, p, Number);
    CounterReference(events);
    ReducedFall(p, points[0], points[0].data.n.i, v, points[|points| - 1].data.n.i);
  }
}
