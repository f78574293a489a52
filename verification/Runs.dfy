/** Whole runs of one series: every mixture of points and ticks of the two caches. */
module Runs {
  import opened DataPoints
  import opened Normalization

  /** A tick may reach either cache; each cache has its own ticker. */
  datatype Event = Push(p: Point) | Tick(start: bool, previous: bool)

  /** What the caches hold at the end, and the outcome of each push. */
  datatype Trace = Trace(series: Series, outcomes: seq<Outcome>)

  const NOTHING: Series := Series(None, None)

  function Pushes(events: seq<Event>): seq<Point> {
    if events == [] then []
    else
      var e := events[|events| - 1];
      Pushes(events[..|events| - 1]) + if e.Push? then [e.p] else []
  }

  ghost predicate OfKind(points: seq<Point>, kind: Kind) {
    forall i :: 0 <= i < |points| ==> points[i].data.Kind() == kind && points[i].data.WellFormed()
  }

  function CollectSeries(s: Series, e: Event): Series
    requires e.Tick?
  {
    Series(if e.start then Collect(s.start) else s.start,
           if e.previous then Collect(s.previous) else s.previous)
  }

  ghost function Run(s: Series, events: seq<Event>, kind: Kind): (t: Trace)
    requires Fits(s, kind) && OfKind(Pushes(events), kind)
    ensures Fits(t.series, kind) && |t.outcomes| == |Pushes(events)|
  {
    if events == [] then Trace(s, [])
    else
      var prefix, e := events[..|events| - 1], events[|events| - 1];
      assert forall i :: 0 <= i < |Pushes(prefix)| ==> Pushes(prefix)[i] == Pushes(events)[i];
      var t := Run(s, prefix, kind);
      match e
      case Tick(_, _) => Trace(CollectSeries(t.series, e), t.outcomes)
      case Push(p) =>
        assert Pushes(events)[|Pushes(events)| - 1] == p;
        var r := Decide(t.series, p);
        Trace(r.series, t.outcomes + [r.outcome])
  }

  /** Runs grow at their end. */
  lemma RunStep(s: Series, events: seq<Event>, kind: Kind) returns (prefix: seq<Event>, e: Event)
    requires Fits(s, kind) && OfKind(Pushes(events), kind) && events != []
    ensures events == prefix + [e] && |prefix| < |events|
    ensures OfKind(Pushes(prefix), kind)
    ensures e.Tick? ==>
      && Pushes(events) == Pushes(prefix)
      && Run(s, events, kind).outcomes == Run(s, prefix, kind).outcomes
      && Run(s, events, kind).series == CollectSeries(Run(s, prefix, kind).series, e)
    ensures e.Push? ==>
      && Pushes(events) == Pushes(prefix) + [e.p]
      && e.p.data.Kind() == kind && e.p.data.WellFormed()
      && Run(s, events, kind).outcomes
      == Run(s, prefix, kind).outcomes + [Decide(Run(s, prefix, kind).series, e.p).outcome]
      && Run(s, events, kind).series == Decide(Run(s, prefix, kind).series, e.p).series
  {
    prefix, e := events[..|events| - 1], events[|events| - 1];
    assert forall i :: 0 <= i < |Pushes(prefix)| ==> Pushes(prefix)[i] == Pushes(events)[i];
    if e.Push? {
      assert Pushes(events)[|Pushes(prefix)|] == e.p;
    }
  }

  // ---------- points with start times of their own ----------

  /** The first n points have a start time before their time. */
  ghost predicate StartedUpTo(points: seq<Point>, n: nat) {
    n <= |points| && forall i :: 0 <= i < n ==> points[i].start != 0 && AsTime(points[i].start) < AsTime(points[i].time)
  }

  /** The first n points are exported as they came, and nothing is cached before the next
      one, which is dropped if it has no usable start time. */
  ghost predicate Pass(t: Trace, points: seq<Point>, n: nat) {
    && n <= |points| == |t.outcomes|
    && (forall i :: 0 <= i < n ==> t.outcomes[i] == Kept(points[i]))
    && (n == |points| ==> t.series == Series(None, None))
    && (n < |points| && !StartedUpTo(points, n + 1) ==> t.outcomes[n] == Dropped)
  }

  function Least(a: nat, b: nat): nat {
    if a <= b then a else b
  }

  lemma PassPush(t: Trace, points: seq<Point>, p: Point, n: nat)
    requires StartedUpTo(points + [p], n) && Pass(t, points, Least(n, |points|))
    requires Fits(t.series, p.data.Kind()) && p.data.WellFormed()
    ensures Pass(Trace(Decide(t.series, p).series, t.outcomes + [Decide(t.series, p).outcome]), points + [p], n)
  {
    var all := points + [p];
    assert all[|points|] == p && forall i :: 0 <= i < |points| ==> all[i] == points[i];
    if n < |points| {
      assert StartedUpTo(points, n + 1) ==> StartedUpTo(all, n + 1);
    }
  }

  /** Over every mixture of points and ticks: up to the first point without a usable start
      time every point is exported as it came, and that one is dropped; if there is none,
      nothing is ever cached. */
  lemma {:induction false} StartedPointsPass(events: seq<Event>, kind: Kind, n: nat)
    requires OfKind(Pushes(events), kind) && StartedUpTo(Pushes(events), n)
    ensures Pass(Run(NOTHING, events, kind), Pushes(events), n)
  {
    if events != [] {
      var prefix, e := RunStep(NOTHING, events, kind);
      assert forall i :: 0 <= i < |Pushes(prefix)| ==> Pushes(events)[i] == Pushes(prefix)[i];
      StartedPointsPass(prefix, kind, Least(n, |Pushes(prefix)|));
      if e.Push? {
        PassPush(Run(NOTHING, prefix, kind), Pushes(prefix), e.p, n);
      }
    }
  }

  // ---------- collection ----------

  /** How often has the cache ticked since the last push? */
  function TicksSince(events: seq<Event>, previous: bool): nat {
    if events == [] || events[|events| - 1].Push? then 0
    else TicksSince(events[..|events| - 1], previous) + if Reaches(events[|events| - 1], previous) then 1 else 0
  }

  predicate Reaches(e: Event, previous: bool) {
    e.Tick? && if previous then e.previous else e.start
  }

  /** A point arrives at least once between two ticks of the same cache. */
  ghost predicate Lively(events: seq<Event>) {
    && TicksSince(events, false) <= 1 && TicksSince(events, true) <= 1
    && (events != [] ==> Lively(events[..|events| - 1]))
  }

  /** Every point but the first finds the start point: at most one tick of the start cache
      since the point before it. The previous cache may tick as often as it likes. */
  ghost predicate Timely(events: seq<Event>) {
    events != [] ==>
      var prefix, e := events[..|events| - 1], events[|events| - 1];
      && Timely(prefix)
      && (e.Push? && Pushes(prefix) != [] ==> TicksSince(prefix, false) <= 1)
  }

  /** The same for a series whose start point is there already. */
  ghost predicate Punctual(events: seq<Event>) {
    events != [] ==>
      var prefix, e := events[..|events| - 1], events[|events| - 1];
      Punctual(prefix) && (e.Push? ==> TicksSince(prefix, false) <= 1)
  }

  /** For each point: has the previous point been collected since it was stored? */
  function Losses(events: seq<Event>): (lost: seq<bool>)
    ensures |lost| == |Pushes(events)|
  {
    if events == [] then []
    else
      var prefix := events[..|events| - 1];
      Losses(prefix) + if events[|events| - 1].Push? then [TicksSince(prefix, true) > 1] else []
  }

  lemma LossesStep(prefix: seq<Event>, e: Event)
    ensures Losses(prefix + [e]) == Losses(prefix) + if e.Push? then [TicksSince(prefix, true) > 1] else []
    ensures e.Tick? ==> Losses(prefix + [e]) == Losses(prefix)
  {
    assert (prefix + [e])[..|prefix|] == prefix;
  }

  /** A lively run is timely, and no point is lost in it. */
  lemma {:induction false} LivelyLosesNothing(events: seq<Event>)
    requires Lively(events)
    ensures Timely(events) && Punctual(events)
    ensures forall i :: 0 <= i < |Losses(events)| ==> !Losses(events)[i]
  {
    if events != [] {
      LivelyLosesNothing(events[..|events| - 1]);
    }
  }

  function Cached(s: Series, previous: bool): Option<Slot> {
    if previous then s.previous else s.start
  }

  /** What the cache holds was used since its last tick, or that tick was the only one
      since the last push. */
  predicate FlagFits(s: Series, previous: bool, ticks: nat) {
    s.start.Some? && Cached(s, previous).Some? ==> Cached(s, previous).value.used || ticks > 0
  }

  predicate SameContents(a: Option<Slot>, b: Option<Slot>) {
    a.Some? == b.Some? && (a.Some? ==> a.value.time == b.value.time && a.value.data == b.value.data)
  }

  lemma PushRaisesFlag(s: Series, p: Point, previous: bool)
    requires Fits(s, p.data.Kind()) && p.data.WellFormed()
    ensures FlagFits(Decide(s, p).series, previous, 0)
  {
  }

  lemma TickKeepsContents(s: Series, e: Event, previous: bool, ticks: nat)
    requires e.Tick? && FlagFits(s, previous, ticks) && !(Reaches(e, previous) && ticks > 0)
    ensures FlagFits(CollectSeries(s, e), previous, ticks + if Reaches(e, previous) then 1 else 0)
    ensures s.start.Some? ==> SameContents(Cached(CollectSeries(s, e), previous), Cached(s, previous))
  {
  }

  lemma {:induction false} LivelyFlag(s: Series, events: seq<Event>, kind: Kind, previous: bool)
    requires Fits(s, kind) && FlagFits(s, previous, 0) && OfKind(Pushes(events), kind) && Lively(events)
    ensures FlagFits(Run(s, events, kind).series, previous, TicksSince(events, previous))
  {
    if events != [] {
      var prefix, e := RunStep(s, events, kind);
      assert prefix == events[..|events| - 1];
      LivelyFlag(s, prefix, kind, previous);
      var before := Run(s, prefix, kind).series;
      match e
      case Tick(_, _) => TickKeepsContents(before, e, previous, TicksSince(prefix, previous));
      case Push(p) => PushRaisesFlag(before, p, previous);
    }
  }

  /** In a lively run a tick changes nothing that matters. */
  lemma LivelyTick(s: Series, events: seq<Event>, e: Event, kind: Kind)
    requires Fits(s, kind) && FlagFits(s, false, 0) && FlagFits(s, true, 0) && OfKind(Pushes(events), kind)
    requires e.Tick? && Lively(events + [e])
    ensures var before := Run(s, events, kind).series;
      before.start.Some? ==>
        && SameContents(CollectSeries(before, e).start, before.start)
        && SameContents(CollectSeries(before, e).previous, before.previous)
  {
    assert (events + [e])[..|events|] == events;
    var before := Run(s, events, kind).series;
    LivelyFlag(s, events, kind, false);
    LivelyFlag(s, events, kind, true);
    TickKeepsContents(before, e, false, TicksSince(events, false));
    TickKeepsContents(before, e, true, TicksSince(events, true));
  }

  /** A previous point that is gone while the start point is still there: the caches have
      their own tickers, so the fallback to the start point is reachable. */
  lemma PreviousCanBeLost(p: Point)
    requires p.start == 0 && p.data.WellFormed()
    ensures var events := [Push(p), Tick(false, true), Tick(false, true)];
      && Pushes(events) == [p] && OfKind(Pushes(events), p.data.Kind())
      && Run(NOTHING, events, p.data.Kind()).series.start.Some?
      && Run(NOTHING, events, p.data.Kind()).series.previous.None?
  {
    var e1 := [Push(p)];
    var e2 := e1 + [Tick(false, true)];
    var e3 := e2 + [Tick(false, true)];
    assert e1[..0] == [] && e2[..1] == e1 && e3[..2] == e2;
    assert Pushes(e1) == [p] && Pushes(e2) == [p] && Pushes(e3) == [p];
    var kind := p.data.Kind();
    assert Run(NOTHING, e1, kind).series == Decide(NOTHING, p).series;
    assert Run(NOTHING, e2, kind).series == CollectSeries(Run(NOTHING, e1, kind).series, Tick(false, true));
    assert Run(NOTHING, e3, kind).series == CollectSeries(Run(NOTHING, e2, kind).series, Tick(false, true));
    assert e3 == [Push(p), Tick(false, true), Tick(false, true)];
  }
}
