/** Series that rise and fall at will: everything the normalizer exports, from the raw
    points and the ticks alone. */
module ClosedForm {
  import opened DataPoints
  import opened Normalization
  import opened Runs
  import opened CachePresence

  // ---------- the closed form ----------

  function Minus(a: Data, b: Data): Data {
    if Comparable(a, b) && a.WellFormed() && b.WellFormed() then SubtractData(a, b) else a
  }

  /** Zero as the program stores it: over what is in the slot already. */
  function Zero(p: Data, prior: Data): Data {
    if p.Kind() == prior.Kind() then AfterReset(p, prior) else prior
  }

  /** p is a reset when it is compared with reference. */
  predicate Resets(p: Point, reference: Data) {
    ExplicitReset(p) || (p.data.Kind() == reference.Kind() && LessThan(p.data, reference))
  }

  /** The points of a series; the first one left base in the start slot, with time begin.
      lost[i] says that the previous point had been collected when point i arrived. */
  datatype History = History(begin: uint64, base: Data, points: seq<Point>, lost: seq<bool>) {
    function Extend(p: Point, l: bool): History {
      this.(points := points + [p], lost := lost + [l])
    }

    predicate Lost(i: nat) {
      i < |lost| && lost[i]
    }

    predicate SeenAsReset(i: nat)
      requires i < |points|
      decreases i, 2
    {
      i > 0 && Resets(points[i], Reference(i))
    }

    /** What point i is compared with: the data exported before it, or the start data. */
    function Reference(i: nat): Data
      requires 0 < i < |points|
      decreases i, 1
    {
      if Lost(i) then StartData(i - 1) else Exported(i - 1)
    }

    /** What is subtracted from the points after point i. */
    function StartData(i: nat): Data
      requires i < |points|
      decreases i, 3
    {
      if i == 0 then base
      else if SeenAsReset(i) then Zero(points[0].data, base)
      else StartData(i - 1)
    }

    /** The first point is not exported, or exported as it came. */
    function Exported(i: nat): Data
      requires i < |points|
      decreases i, 3
    {
      if i == 0 || SeenAsReset(i) then points[i].data else Minus(points[i].data, StartData(i - 1))
    }

    /** The start time: from the last reset seen. */
    function StartTime(i: nat): uint64
      requires i < |points|
    {
      if i == 0 then begin
      else if SeenAsReset(i) then ResetPoint(points[i]).start
      else StartTime(i - 1)
    }

    function ExportedPoint(i: nat): Point
      requires i < |points|
    {
      Point(StartTime(i), points[i].time, Exported(i))
    }
  }

  lemma {:induction false} ExtendAgrees(h: History, p: Point, l: bool, i: nat)
    requires i < |h.points| == |h.lost|
    ensures var x := h.Extend(p, l);
      && x.SeenAsReset(i) == h.SeenAsReset(i) && x.StartData(i) == h.StartData(i)
      && x.ExportedPoint(i) == h.ExportedPoint(i)
  {
    var x := h.Extend(p, l);
    assert x.points[i] == h.points[i] && x.points[0] == h.points[0] && x.Lost(i) == h.Lost(i);
    if i > 0 {
      ExtendAgrees(h, p, l, i - 1);
    }
  }

  // ---------- points of one shape ----------

  /** The point brings a value or a sum. */
  predicate Carries(d: Data) {
    match d
    case NumberData(n) => n != Unset
    case SummaryData(_) => true
    case HistogramData(h) => h.sum.Some?
    case ExponentialData(e) => e.sum.Some?
  }

  predicate SameShape(a: Data, b: Data) {
    Comparable(a, b) && a.WellFormed() && b.WellFormed()
  }

  ghost predicate Shaped(points: seq<Point>, base: Data) {
    forall i :: 0 <= i < |points| ==> Carries(points[i].data) && SameShape(points[i].data, base)
  }

  lemma CopyOfCarried(src: Data, dest: Data)
    requires Carries(src) && src.Kind() == dest.Kind()
    ensures CopyInto(src, dest) == src
  {
  }

  lemma MinusCarries(a: Data, b: Data)
    requires Carries(a) && SameShape(a, b)
    ensures Minus(a, b) == SubtractData(a, b) && Carries(Minus(a, b)) && SameShape(Minus(a, b), b)
  {
  }

  /** The zero point depends on the shape of the series and on what is in the slot alone,
      and writing it again changes nothing. */
  lemma ZeroAgain(p: Data, q: Data, base: Data)
    requires SameShape(p, base) && SameShape(q, base)
    ensures SameShape(Zero(p, base), base)
    ensures Zero(p, base) == Zero(q, base) && Zero(q, Zero(p, base)) == Zero(p, base)
  {
  }

  lemma {:induction false} StaysShaped(h: History, i: nat)
    requires Shaped(h.points, h.base) && i < |h.points|
    ensures SameShape(h.StartData(i), h.base) && SameShape(h.Exported(i), h.base) && Carries(h.Exported(i))
    ensures h.StartData(i) == h.base || h.StartData(i) == Zero(h.points[0].data, h.base)
  {
    assert Carries(h.points[i].data) && SameShape(h.points[i].data, h.base) && SameShape(h.points[0].data, h.base);
    if i > 0 {
      StaysShaped(h, i - 1);
      ZeroAgain(h.points[0].data, h.points[0].data, h.base);
      if !h.SeenAsReset(i) {
        MinusCarries(h.points[i].data, h.StartData(i - 1));
      }
    }
  }

  // ---------- one point ----------

  /** What is still cached after the last point is what the closed form says. */
  predicate Holds(s: Series, h: History)
    requires h.points != []
  {
    var n := |h.points| - 1;
    && (s.start.Some? ==> s.start.value.time == h.StartTime(n) && s.start.value.data == h.StartData(n))
    && (s.previous.Some? ==> s.previous.value.data == h.Exported(n))
  }

  lemma StepDecision(s: Series, p: Point, start: Data, reference: Data)
    requires Fits(s, p.data.Kind()) && s.start.Some? && s.start.value.data == start
    requires reference == PreviousData(s) && Carries(p.data) && SameShape(p.data, start)
    requires StartUnknown(p) && Before(s.start.value.time, p.time)
    ensures var r, seen := Decide(s, p), Resets(p, reference);
      var q := if seen then ResetPoint(p) else Point(s.start.value.time, p.time, Minus(p.data, start));
      && r.outcome == Normalization.Kept(q) && r.series.start.Some? && r.series.previous.Some?
      && r.series.start.value.time == q.start && r.series.previous.value.data == q.data
      && r.series.start.value.data == if seen then Zero(p.data, start) else start
  {
    MinusCarries(p.data, start);
    if s.previous.Some? {
      CopyOfCarried(p.data, s.previous.value.data);
      CopyOfCarried(Minus(p.data, start), s.previous.value.data);
    } else {
      CopyOfCarried(p.data, EmptyData(p.data.Kind()));
      CopyOfCarried(Minus(p.data, start), EmptyData(p.data.Kind()));
    }
  }

  lemma Step(s: Series, h: History, p: Point, startTicks: nat, previousTicks: nat)
    requires h.points != [] && |h.points| == |h.lost| && Shaped(h.points, h.base)
    requires Fits(s, p.data.Kind()) && Holds(s, h) && Carries(p.data) && SameShape(p.data, h.base)
    requires startTicks <= 1 && Steady(s, Some(h.points[|h.points| - 1].time), startTicks, previousTicks)
    requires StartUnknown(p) && Before(h.points[|h.points| - 1].time, p.time)
    ensures var x := h.Extend(p, previousTicks > 1);
      && Decide(s, p).outcome == Normalization.Kept(x.ExportedPoint(|h.points|))
      && Holds(Decide(s, p).series, x)
  {
    var x, n := h.Extend(p, previousTicks > 1), |h.points|;
    assert x.points[n] == p && x.points[0] == h.points[0] && x.Lost(n) == (previousTicks > 1);
    ExtendAgrees(h, p, previousTicks > 1, n - 1);
    StaysShaped(h, n - 1);
    var start := h.StartData(n - 1);
    assert x.Reference(n) == PreviousData(s);
    StepDecision(s, p, start, x.Reference(n));
    ZeroAgain(h.points[0].data, p.data, h.base);
  }

  lemma HoldsAfterTick(s: Series, h: History, e: Event)
    requires h.points != [] && Holds(s, h) && e.Tick?
    ensures Holds(CollectSeries(s, e), h)
  {
  }

  // ---------- whole runs ----------

  /** Every outcome after the first one is what the closed form says. */
  ghost predicate Explains(h: History, outcomes: seq<Outcome>) {
    && |outcomes| == |h.points| == |h.lost|
    && forall i :: 0 < i < |outcomes| ==> outcomes[i] == Normalization.Kept(h.ExportedPoint(i))
  }

  lemma ExplainsOneMore(h: History, outcomes: seq<Outcome>, p: Point, l: bool, outcome: Outcome)
    requires h.points != [] && Explains(h, outcomes)
    requires outcome == Normalization.Kept(h.Extend(p, l).ExportedPoint(|h.points|))
    ensures Explains(h.Extend(p, l), outcomes + [outcome])
  {
    forall i | 0 < i < |outcomes| ensures outcomes[i] == Normalization.Kept(h.Extend(p, l).ExportedPoint(i)) {
      ExtendAgrees(h, p, l, i);
    }
  }

  lemma Continue(h: History, outcomes: seq<Outcome>, s: Series, p: Point, startTicks: nat, previousTicks: nat)
    requires h.points != [] && Explains(h, outcomes) && Holds(s, h) && Shaped(h.points, h.base)
    requires Fits(s, p.data.Kind()) && Carries(p.data) && SameShape(p.data, h.base)
    requires startTicks <= 1 && Steady(s, Some(h.points[|h.points| - 1].time), startTicks, previousTicks)
    requires StartUnknown(p) && Before(h.points[|h.points| - 1].time, p.time)
    ensures var x, r := h.Extend(p, previousTicks > 1), Decide(s, p);
      Explains(x, outcomes + [r.outcome]) && Holds(r.series, x)
  {
    Step(s, h, p, startTicks, previousTicks);
    ExplainsOneMore(h, outcomes, p, previousTicks > 1, Decide(s, p).outcome);
  }

  /** The history of a series from its first point on. */
  function FreshHistory(points: seq<Point>, lost: seq<bool>): History
    requires points != []
  {
    History(points[0].time, points[0].data, points, lost)
  }

  ghost predicate Regular(points: seq<Point>) {
    Unstarted(points) && (points != [] ==> Shaped(points, points[0].data))
  }

  lemma RegularPrefix(points: seq<Point>, p: Point)
    requires Regular(points + [p])
    ensures Regular(points) && StartUnknown(p) && -TWO_63 + MILLISECOND <= AsTime(p.time) && Carries(p.data)
    ensures if points == [] then SameShape(p.data, p.data)
            else SameShape(p.data, points[0].data) && Before(points[|points| - 1].time, p.time)
  {
    var all := points + [p];
    assert all[|points|] == p;
    assert forall i :: 0 <= i < |points| ==> all[i] == points[i];
  }

  /** What a run from empty caches keeps. */
  ghost predicate Told(t: Trace, points: seq<Point>, lost: seq<bool>) {
    && |t.outcomes| == |points| == |lost|
    && (points != [] ==>
          && t.outcomes[0] == Dropped
          && Explains(FreshHistory(points, lost), t.outcomes) && Holds(t.series, FreshHistory(points, lost)))
  }

  lemma ToldFirst(p: Point, lost: bool)
    requires Regular([p])
    ensures Told(Trace(Decide(NOTHING, p).series, [Decide(NOTHING, p).outcome]), [p], [lost])
  {
    CopyOfCarried(p.data, EmptyData(p.data.Kind()));
  }

  lemma ToldPush(t: Trace, points: seq<Point>, lost: seq<bool>, p: Point,
                                    startTicks: nat, previousTicks: nat)
    requires Told(t, points, lost) && Regular(points + [p]) && Fits(t.series, p.data.Kind()) && p.data.WellFormed()
    requires Steady(t.series, LastTime(None, points), startTicks, previousTicks) && (points != [] ==> startTicks <= 1)
    ensures var r := Decide(t.series, p);
      Told(Trace(r.series, t.outcomes + [r.outcome]), points + [p], lost + [previousTicks > 1])
  {
    RegularPrefix(points, p);
    if points == [] {
      ToldFirst(p, previousTicks > 1);
      assert points + [p] == [p] && lost + [previousTicks > 1] == [previousTicks > 1];
      assert t.outcomes + [Decide(t.series, p).outcome] == [Decide(t.series, p).outcome];
    } else {
      Continue(FreshHistory(points, lost), t.outcomes, t.series, p, startTicks, previousTicks);
    }
  }

  /** Every timely run of every kind of series, rising or falling: the first point is
      dropped, the others are exported in closed form. */
  lemma {:induction false} FreshRun(events: seq<Event>, kind: Kind)
    requires OfKind(Pushes(events), kind) && Regular(Pushes(events)) && Timely(events)
    ensures Told(Run(NOTHING, events, kind), Pushes(events), Losses(events))
  {
    if events != [] {
      var prefix, e := RunStep(NOTHING, events, kind);
      assert prefix == events[..|events| - 1];
      LossesStep(prefix, e);
      var points, t := Pushes(prefix), Run(NOTHING, prefix, kind);
      match e
      case Tick(_, _) =>
        FreshRun(prefix, kind);
        if points != [] {
          HoldsAfterTick(t.series, FreshHistory(points, Losses(prefix)), e);
        }
      case Push(p) =>
        RegularPrefix(points, p);
        FreshRun(prefix, kind);
        SteadyRun(NOTHING, None, prefix, kind);
        ToldPush(t, points, Losses(prefix), p, TicksSince(prefix, false), TicksSince(prefix, true));
    }
  }

  /** The history from a reset on: prior is what the reset found in the start slot. */
  function ResetHistory(first: Point, prior: Data, points: seq<Point>, lost: seq<bool>): History {
    History(ResetPoint(first).start, Zero(first.data, prior), [first] + points, [false] + lost)
  }

  ghost predicate RegularFrom(first: Point, prior: Data, points: seq<Point>) {
    Unstarted([first] + points) && Shaped([first] + points, prior)
  }

  lemma RegularFromPrefix(first: Point, prior: Data, points: seq<Point>, p: Point)
    requires RegularFrom(first, prior, points + [p])
    ensures RegularFrom(first, prior, points) && StartUnknown(p) && Carries(p.data) && SameShape(p.data, prior)
    ensures Before(([first] + points)[|points|].time, p.time)
  {
    var all := [first] + (points + [p]);
    assert all == ([first] + points) + [p] && all[|points| + 1] == p;
    assert forall i :: 0 <= i <= |points| ==> all[i] == ([first] + points)[i];
  }

  lemma ShapedByZero(first: Point, prior: Data, points: seq<Point>)
    requires RegularFrom(first, prior, points)
    ensures Shaped([first] + points, Zero(first.data, prior)) && SameShape(first.data, prior)
    ensures Carries(first.data) && Unstarted([first])
  {
    assert ([first] + points)[0] == first;
    ZeroAgain(first.data, first.data, prior);
  }

  /** What a run from a detected reset on keeps. */
  ghost predicate ToldSince(t: Trace, first: Point, prior: Data, points: seq<Point>, lost: seq<bool>) {
    var h := ResetHistory(first, prior, points, lost);
    Explains(h, [Normalization.Kept(ResetPoint(first))] + t.outcomes) && Holds(t.series, h)
  }

  lemma ToldSincePush(t: Trace, first: Point, prior: Data, points: seq<Point>, lost: seq<bool>,
                                         p: Point, startTicks: nat, previousTicks: nat)
    requires ToldSince(t, first, prior, points, lost) && RegularFrom(first, prior, points + [p])
    requires Fits(t.series, p.data.Kind()) && p.data.WellFormed() && startTicks <= 1
    requires Steady(t.series, LastTime(Some(first.time), points), startTicks, previousTicks)
    ensures var r := Decide(t.series, p);
      ToldSince(Trace(r.series, t.outcomes + [r.outcome]), first, prior, points + [p], lost + [previousTicks > 1])
  {
    var h, r, l := ResetHistory(first, prior, points, lost), Decide(t.series, p), previousTicks > 1;
    RegularFromPrefix(first, prior, points, p);
    ShapedByZero(first, prior, points);
    ZeroAgain(first.data, p.data, prior);
    Continue(h, [Normalization.Kept(ResetPoint(first))] + t.outcomes, t.series, p, startTicks, previousTicks);
    assert [first] + points + [p] == [first] + (points + [p]);
    assert [false] + lost + [l] == [false] + (lost + [l]);
    assert [Normalization.Kept(ResetPoint(first))] + t.outcomes + [r.outcome]
        == [Normalization.Kept(ResetPoint(first))] + (t.outcomes + [r.outcome]);
  }

  lemma DetectedReset(s: Series, first: Point)
    requires Fits(s, first.data.Kind()) && s.start.Some? && DetectsReset(first, PreviousData(s))
    requires SameShape(first.data, s.start.value.data) && Carries(first.data) && Unstarted([first])
    ensures Decide(s, first) == ResetAt(s, first)
    ensures ToldSince(Trace(ResetAt(s, first).series, []), first, s.start.value.data, [], [])
    ensures Steady(ResetAt(s, first).series, Some(first.time), 0, 0)
  {
    assert [first][0] == first;
    ResetPointStart(first);
    CopyOfCarried(first.data, if s.previous.Some? then s.previous.value.data else EmptyData(first.data.Kind()));
  }

  /** From any state of the caches in which a reset is detected at first. */
  lemma {:induction false} ResetRun(s: Series, first: Point, events: seq<Event>, kind: Kind)
    requires Fits(s, kind) && kind == first.data.Kind() && s.start.Some? && DetectsReset(first, PreviousData(s))
    requires OfKind(Pushes(events), kind) && first.data.WellFormed() && Punctual(events)
    requires RegularFrom(first, s.start.value.data, Pushes(events))
    ensures Decide(s, first).outcome == Normalization.Kept(ResetPoint(first))
    ensures ToldSince(Run(Decide(s, first).series, events, kind), first, s.start.value.data,
                      Pushes(events), Losses(events))
  {
    var prior := s.start.value.data;
    if events == [] {
      assert [first] + [] == [first];
      ShapedByZero(first, prior, []);
      DetectedReset(s, first);
    } else {
      var start := Decide(s, first).series;
      var prefix, e := RunStep(start, events, kind);
      assert prefix == events[..|events| - 1];
      LossesStep(prefix, e);
      var points, t := Pushes(prefix), Run(start, prefix, kind);
      match e
      case Tick(_, _) =>
        ResetRun(s, first, prefix, kind);
        HoldsAfterTick(t.series, ResetHistory(first, prior, points, Losses(prefix)), e);
      case Push(p) =>
        RegularFromPrefix(first, prior, points, p);
        ResetRun(s, first, prefix, kind);
        SteadySinceReset(s, first, prefix, kind);
        ToldSincePush(t, first, prior, points, Losses(prefix), p, TicksSince(prefix, false), TicksSince(prefix, true));
    }
  }

  lemma SteadySinceReset(s: Series, first: Point, events: seq<Event>, kind: Kind)
    requires Fits(s, kind) && kind == first.data.Kind() && s.start.Some? && DetectsReset(first, PreviousData(s))
    requires OfKind(Pushes(events), kind) && first.data.WellFormed()
    requires RegularFrom(first, s.start.value.data, Pushes(events))
    ensures Steady(Run(Decide(s, first).series, events, kind).series, LastTime(Some(first.time), Pushes(events)),
                   TicksSince(events, false), TicksSince(events, true))
  {
    var all := [first] + Pushes(events);
    assert all[0] == first && forall i :: 0 <= i < |Pushes(events)| ==> all[i + 1] == Pushes(events)[i];
    ShapedByZero(first, s.start.value.data, Pushes(events));
    DetectedReset(s, first);
    SteadyRun(Decide(s, first).series, Some(first.time), events, kind);
  }

  // ---------- three points ----------

  function At(milliseconds: uint64, data: Data): Point
    requires milliseconds < 1_000
  {
    Point(0, milliseconds * MILLISECOND, data)
  }

  function ThreePushes(a: Data, b: Data, c: Data): seq<Event> {
    [Push(At(10, a)), Push(At(20, b)), Push(At(30, c))]
  }

  /** The first of three points is dropped, the others are exported as given. */
  ghost predicate ExportsTwo(events: seq<Event>, second: Point, third: Point) {
    var kind := second.data.Kind();
    && OfKind(Pushes(events), kind)
    && Run(NOTHING, events, kind).outcomes == [Dropped, Normalization.Kept(second), Normalization.Kept(third)]
  }

  lemma {:induction false} OnlyPushes(events: seq<Event>)
    requires forall i :: 0 <= i < |events| ==> events[i].Push?
    ensures Lively(events) && |Pushes(events)| == |events|
    ensures forall i :: 0 <= i < |events| ==> Pushes(events)[i] == events[i].p
  {
    if events != [] {
      OnlyPushes(events[..|events| - 1]);
    }
  }

  lemma ThreePoints(a: Data, b: Data, c: Data) returns (h: History)
    requires Carries(a) && Carries(b) && Carries(c) && SameShape(b, a) && SameShape(c, a)
    ensures h.points == [At(10, a), At(20, b), At(30, c)] && h.base == a && h.begin == 10 * MILLISECOND
    ensures !h.Lost(1) && !h.Lost(2)
    ensures ExportsTwo(ThreePushes(a, b, c), h.ExportedPoint(1), h.ExportedPoint(2))
  {
    var events := ThreePushes(a, b, c);
    OnlyPushes(events);
    LivelyLosesNothing(events);
    assert Pushes(events) == [At(10, a), At(20, b), At(30, c)];
    h := FreshHistory(Pushes(events), Losses(events));
    FreshRun(events, a.Kind());
    StaysShaped(h, 1);
  }

  lemma SecondExport(h: History, a: Data, b: Data)
    requires |h.points| == 3 && h.points[0] == At(10, a) && h.points[1] == At(20, b)
    requires h.base == a && h.begin == 10 * MILLISECOND && !h.Lost(1)
    ensures var reset := Resets(At(20, b), a);
      && h.Exported(1) == (if reset then b else Minus(b, a))
      && h.StartData(1) == (if reset then Zero(a, a) else a)
      && h.StartTime(1) == (if reset then 19 else 10) * MILLISECOND
  {
    assert h.Reference(1) == a && h.StartTime(0) == 10 * MILLISECOND;
  }

  lemma ThirdExport(h: History, c: Data)
    requires |h.points| == 3 && h.points[2] == At(30, c) && !h.Lost(2) && !Resets(At(30, c), h.Exported(1))
    ensures h.Exported(2) == Minus(c, h.StartData(1)) && h.StartTime(2) == h.StartTime(1)
  {
    assert h.Reference(2) == h.Exported(1);
  }

  /** The third point is not seen as a reset. */
  lemma ThreeOutcomes(a: Data, b: Data, c: Data, second: Data, third: Data, start: uint64)
    requires Carries(a) && Carries(b) && Carries(c) && SameShape(b, a) && SameShape(c, a)
    requires var reset := LessThan(b, a);
      && second == (if reset then b else Minus(b, a)) && second.Kind() == c.Kind() && !LessThan(c, second)
      && third == Minus(c, if reset then Zero(a, a) else a) && start == if reset then 19 else 10
    ensures ExportsTwo(ThreePushes(a, b, c),
                       At(20, second).(start := start * MILLISECOND), At(30, third).(start := start * MILLISECOND))
  {
    var h := ThreePoints(a, b, c);
    SecondExport(h, a, b);
    ThirdExport(h, c);
  }
}
