/** Which of a series' two points are still cached, over every run, and exactly when the
    normalizer falls back to the start point. */
module CachePresence {
  import opened DataPoints
  import opened Normalization
  import opened Runs

  /** The points the normalizer is documented for: no usable start time, in time order. */
  ghost predicate Unstarted(points: seq<Point>) {
    && (forall i :: 0 <= i < |points| ==> StartUnknown(points[i]) && -TWO_63 + MILLISECOND <= AsTime(points[i].time))
    && (forall i, j :: 0 <= i < j < |points| ==> Before(points[i].time, points[j].time))
  }

  /** last is the time of a point that came before. */
  ghost predicate UnstartedAfter(last: Option<uint64>, points: seq<Point>) {
    Unstarted(points) && (last.Some? && points != [] ==> Before(last.value, points[0].time))
  }

  function LastTime(last: Option<uint64>, points: seq<Point>): Option<uint64> {
    if points == [] then last else Some(points[|points| - 1].time)
  }

  /** The slot after this many ticks without a push. */
  predicate Survives(slot: Option<Slot>, ticks: nat) {
    slot.Some? == (ticks <= 1) && (slot.Some? ==> slot.value.used == (ticks == 0))
  }

  /** Both slots are there as long as their ticks allow, and the start point is not after
      the last point. */
  predicate Steady(s: Series, last: Option<uint64>, startTicks: nat, previousTicks: nat) {
    if last.None? then s == NOTHING
    else
      && Survives(s.start, startTicks) && Survives(s.previous, previousTicks)
      && (s.start.Some? ==> AsTime(s.start.value.time) <= AsTime(last.value))
  }

  lemma SteadyPush(s: Series, last: Option<uint64>, p: Point, startTicks: nat, previousTicks: nat)
    requires Steady(s, last, startTicks, previousTicks) && Fits(s, p.data.Kind()) && p.data.WellFormed()
    requires StartUnknown(p) && -TWO_63 + MILLISECOND <= AsTime(p.time) && (last.Some? ==> Before(last.value, p.time))
    ensures Steady(Decide(s, p).series, Some(p.time), 0, 0)
  {
    ResetPointStart(p);
  }

  lemma SteadyTick(s: Series, last: Option<uint64>, e: Event, startTicks: nat, previousTicks: nat)
    requires Steady(s, last, startTicks, previousTicks) && e.Tick?
    ensures Steady(CollectSeries(s, e), last,
                   startTicks + if e.start then 1 else 0, previousTicks + if e.previous then 1 else 0)
  {
  }

  lemma UnstartedPrefix(last: Option<uint64>, points: seq<Point>, p: Point)
    requires UnstartedAfter(last, points + [p])
    ensures UnstartedAfter(last, points) && StartUnknown(p) && -TWO_63 + MILLISECOND <= AsTime(p.time)
    ensures LastTime(last, points).Some? ==> Before(LastTime(last, points).value, p.time)
  {
    var all := points + [p];
    assert all[|points|] == p;
    assert forall i :: 0 <= i < |points| ==> all[i] == points[i];
  }

  /** Over every mixture of points and ticks, from empty caches or from a point just stored. */
  lemma {:induction false} SteadyRun(s: Series, last: Option<uint64>, events: seq<Event>, kind: Kind)
    requires Fits(s, kind) && OfKind(Pushes(events), kind) && UnstartedAfter(last, Pushes(events))
    requires Steady(s, last, 0, 0)
    ensures Steady(Run(s, events, kind).series, LastTime(last, Pushes(events)),
                   TicksSince(events, false), TicksSince(events, true))
  {
    if events != [] {
      var prefix, e := RunStep(s, events, kind);
      assert prefix == events[..|events| - 1];
      var points, t := Pushes(prefix), Run(s, prefix, kind);
      match e
      case Tick(_, _) =>
        SteadyRun(s, last, prefix, kind);
        SteadyTick(t.series, LastTime(last, points), e, TicksSince(prefix, false), TicksSince(prefix, true));
      case Push(p) =>
        UnstartedPrefix(last, points, p);
        SteadyRun(s, last, prefix, kind);
        SteadyPush(t.series, LastTime(last, points), p, TicksSince(prefix, false), TicksSince(prefix, true));
    }
  }

  /** "This should never happen": for every series the start point is cached without the
      previous one exactly when, since the last point, the previous cache ticked more than
      once and the start cache did not. */
  lemma FallbackIff(events: seq<Event>, kind: Kind)
    requires OfKind(Pushes(events), kind) && Unstarted(Pushes(events)) && Pushes(events) != []
    ensures var s := Run(NOTHING, events, kind).series;
      s.start.Some? && s.previous.None? <==> TicksSince(events, false) <= 1 < TicksSince(events, true)
  {
    SteadyRun(NOTHING, None, events, kind);
  }
}
