/** "It doesn't modify values after a reset": exactly when that promise is kept, over whole
    runs of every kind of series. */
module ResetPromise {
  import opened DataPoints
  import opened Normalization
  import opened Runs
  import opened CachePresence
  import opened ClosedForm

  // ---------- from a reset on ----------

  predicate Raw(h: History, i: nat)
    requires i < |h.points|
  {
    h.Exported(i) == h.points[i].data
  }

  predicate LeavesNothing(d: Data, prior: Data) {
    d.Kind() == prior.Kind() ==> NoResidue(d, prior)
  }

  /** Point i is a reset next to the raw point before it, or next to the zero point if that
      one was lost. */
  predicate ShowsReset(h: History, i: nat)
    requires 0 < i < |h.points|
  {
    Resets(h.points[i], if h.Lost(i) then Zero(h.points[0].data, h.base) else h.points[i - 1].data)
  }

  predicate Harmless(h: History, i: nat)
    requires 0 < i < |h.points|
  {
    LeavesNothing(h.points[i].data, h.base) || ShowsReset(h, i)
  }

  /** Every point after r and before end is exported as it came. */
  ghost predicate AllRaw(h: History, r: nat, end: nat)
    requires end <= |h.points|
  {
    forall i: nat :: r < i < end ==> Raw(h, i)
  }

  ghost predicate AllHarmless(h: History, r: nat, end: nat)
    requires end <= |h.points|
  {
    forall i: nat :: r < i < end ==> Harmless(h, i)
  }

  lemma {:induction false} ZeroStays(h: History, r: nat, i: nat)
    requires r <= i < |h.points| && h.StartData(r) == Zero(h.points[0].data, h.base)
    ensures h.StartData(i) == h.StartData(r)
  {
    if r < i {
      ZeroStays(h, r, i - 1);
    }
  }

  lemma RawStep(h: History, i: nat)
    requires Shaped(h.points, h.base) && 0 < i < |h.points|
    requires h.StartData(i - 1) == Zero(h.points[0].data, h.base) && Raw(h, i - 1)
    ensures Raw(h, i) <==> Harmless(h, i)
  {
    assert h.SeenAsReset(i) <==> ShowsReset(h, i);
    UntouchedAfterResetIff(h.points[i].data, h.points[0].data, h.base);
    ZeroAgain(h.points[0].data, h.points[0].data, h.base);
  }

  /** r is a reset, or follows from one: up to end all is raw exactly when all is harmless. */
  lemma {:induction false} RawSinceIff(h: History, r: nat, end: nat)
    requires Shaped(h.points, h.base) && r < end <= |h.points|
    requires h.StartData(r) == Zero(h.points[0].data, h.base) && Raw(h, r)
    ensures AllRaw(h, r, end) <==> AllHarmless(h, r, end)
  {
    if r + 1 < end {
      RawSinceIff(h, r, end - 1);
      if AllRaw(h, r, end - 1) {
        assert Raw(h, end - 2);
        ZeroStays(h, r, end - 2);
        RawStep(h, end - 1);
      }
    }
  }

  predicate RawOutcome(outcome: Outcome, p: Point) {
    outcome.Kept? && outcome.point.data == p.data
  }

  /** The values after the point at r are exported as they came in. */
  ghost predicate RawSince(outcomes: seq<Outcome>, points: seq<Point>, r: nat) {
    && |outcomes| == |points|
    && forall i: nat :: r < i < |points| ==> RawOutcome(outcomes[i], points[i])
  }

  lemma RawSinceMeans(h: History, outcomes: seq<Outcome>, r: nat)
    requires Explains(h, outcomes)
    ensures RawSince(outcomes, h.points, r) <==> AllRaw(h, r, |h.points|)
  {
    forall i: nat | r < i < |h.points| ensures RawOutcome(outcomes[i], h.points[i]) <==> Raw(h, i) {
      assert outcomes[i] == Normalization.Kept(h.ExportedPoint(i));
    }
  }

  /** The data point i of points is compared with, first being the reset before them. */
  function ComparedWith(first: Data, prior: Data, points: seq<Point>, lost: seq<bool>, i: nat): Data
    requires i < |points| == |lost|
  {
    if lost[i] then Zero(first, prior) else if i == 0 then first else points[i - 1].data
  }

  /** Point i keeps its value after a reset at first: nothing is taken from it, or it is a
      reset itself next to the raw value before it. */
  predicate StaysRaw(first: Data, prior: Data, points: seq<Point>, lost: seq<bool>, i: nat)
    requires i < |points| == |lost|
  {
    LeavesNothing(points[i].data, prior) || Resets(points[i], ComparedWith(first, prior, points, lost, i))
  }

  ghost predicate AllStayRaw(first: Data, prior: Data, points: seq<Point>, lost: seq<bool>)
    requires |points| == |lost|
  {
    forall i: nat :: i < |points| ==> StaysRaw(first, prior, points, lost, i)
  }

  ghost predicate AllUnmodified(outcomes: seq<Outcome>, points: seq<Point>) {
    && |outcomes| == |points|
    && forall i: nat :: i < |points| ==> RawOutcome(outcomes[i], points[i])
  }

  lemma HarmlessFrom(first: Point, prior: Data, points: seq<Point>, lost: seq<bool>, i: nat)
    requires RegularFrom(first, prior, points) && i < |points| == |lost|
    ensures Harmless(ResetHistory(first, prior, points, lost), i + 1) <==> StaysRaw(first.data, prior, points, lost, i)
  {
    var all := [first] + points;
    assert all[0] == first && all[i + 1] == points[i] && (i > 0 ==> all[i] == points[i - 1]);
    assert ([false] + lost)[i + 1] == lost[i];
    ZeroAgain(first.data, first.data, prior);
    UntouchedAfterResetIff(points[i].data, first.data, prior);
    UntouchedAfterResetIff(points[i].data, first.data, Zero(first.data, prior));
  }

  lemma AllHarmlessFrom(first: Point, prior: Data, points: seq<Point>, lost: seq<bool>)
    requires RegularFrom(first, prior, points) && |points| == |lost|
    ensures AllHarmless(ResetHistory(first, prior, points, lost), 0, |points| + 1)
       <==> AllStayRaw(first.data, prior, points, lost)
  {
    var h := ResetHistory(first, prior, points, lost);
    forall i: nat | i < |points| ensures Harmless(h, i + 1) <==> StaysRaw(first.data, prior, points, lost, i) {
      HarmlessFrom(first, prior, points, lost, i);
    }
    if AllStayRaw(first.data, prior, points, lost) {
      forall i: nat | 0 < i < |points| + 1 ensures Harmless(h, i) {
        assert StaysRaw(first.data, prior, points, lost, i - 1) && Harmless(h, i - 1 + 1);
      }
    }
  }

  lemma RawSinceFirst(first: Point, points: seq<Point>, outcome: Outcome, outcomes: seq<Outcome>)
    ensures RawSince([outcome] + outcomes, [first] + points, 0) <==> AllUnmodified(outcomes, points)
  {
    var all, more := [first] + points, [outcome] + outcomes;
    if AllUnmodified(outcomes, points) {
      forall i: nat | 0 < i < |all| ensures RawOutcome(more[i], all[i]) {
        assert RawOutcome(outcomes[i - 1], points[i - 1]);
      }
    }
    if RawSince(more, all, 0) {
      forall i: nat | i < |points| ensures RawOutcome(outcomes[i], points[i]) {
        assert RawOutcome(more[i + 1], all[i + 1]);
      }
    }
  }

  /** From any state of the caches in which a reset is detected at first, for every kind of
      point and every punctual run: all later values are exported as they came exactly when
      each of them is one from which what was left in the start slot takes nothing, or a
      reset next to the raw value before it. */
  lemma UnmodifiedSinceResetIff(s: Series, first: Point, events: seq<Event>, kind: Kind)
    requires Fits(s, kind) && kind == first.data.Kind() && s.start.Some? && DetectsReset(first, PreviousData(s))
    requires OfKind(Pushes(events), kind) && first.data.WellFormed() && Punctual(events)
    requires RegularFrom(first, s.start.value.data, Pushes(events))
    ensures Decide(s, first).outcome == Normalization.Kept(ResetPoint(first))
    ensures AllUnmodified(Run(Decide(s, first).series, events, kind).outcomes, Pushes(events))
       <==> AllStayRaw(first.data, s.start.value.data, Pushes(events), Losses(events))
  {
    var prior, h := s.start.value.data, ResetHistory(first, s.start.value.data, Pushes(events), Losses(events));
    var outcomes := Run(Decide(s, first).series, events, kind).outcomes;
    ResetRun(s, first, events, kind);
    RawFromResetIff(first, prior, Pushes(events), Losses(events), outcomes);
  }

  lemma RawFromResetIff(first: Point, prior: Data, points: seq<Point>, lost: seq<bool>,
                                           outcomes: seq<Outcome>)
    requires RegularFrom(first, prior, points) && |points| == |lost| == |outcomes|
    requires Explains(ResetHistory(first, prior, points, lost), [Normalization.Kept(ResetPoint(first))] + outcomes)
    ensures AllUnmodified(outcomes, points) <==> AllStayRaw(first.data, prior, points, lost)
  {
    var h, outcome := ResetHistory(first, prior, points, lost), Normalization.Kept(ResetPoint(first));
    ShapedByZero(first, prior, points);
    ZeroAgain(first.data, first.data, prior);
    assert h.points[0] == first;
    RawSinceFirst(first, points, outcome, outcomes);
    RawSinceMeans(h, [outcome] + outcomes, 0);
    RawSinceIff(h, 0, |points| + 1);
    AllHarmlessFrom(first, prior, points, lost);
  }

  // ---------- whole runs ----------

  /** What point i would be compared with if no reset was seen before it. */
  function FirstReference(h: History, i: nat): Data
    requires 0 < i < |h.points|
  {
    if h.Lost(i) then h.base
    else if i == 1 then h.points[0].data
    else Minus(h.points[i - 1].data, h.base)
  }

  /** The point drops below that. */
  predicate Drops(h: History, i: nat)
    requires i < |h.points|
  {
    i > 0 && Resets(h.points[i], FirstReference(h, i))
  }

  ghost predicate NoDropBefore(h: History, r: nat)
    requires r <= |h.points|
  {
    forall k: nat :: k < r ==> !Drops(h, k)
  }

  ghost predicate IsFirstDrop(h: History, r: nat) {
    r < |h.points| && NoDropBefore(h, r) && Drops(h, r)
  }

  lemma {:induction false} NoneSeenBefore(h: History, r: nat)
    requires r < |h.points| && NoDropBefore(h, r)
    ensures forall k: nat :: k < r ==> !h.SeenAsReset(k)
    ensures h.SeenAsReset(r) <==> Drops(h, r)
    ensures !Drops(h, r) ==> h.StartData(r) == h.base
  {
    if r > 0 {
      NoneSeenBefore(h, r - 1);
      assert !Drops(h, r - 1) && h.StartData(r - 1) == h.base;
      assert h.Reference(r) == FirstReference(h, r);
    }
  }

  lemma LeastDrop(h: History) returns (r: nat)
    requires !NoDropBefore(h, |h.points|)
    ensures IsFirstDrop(h, r)
  {
    r := 0;
    while !Drops(h, r)
      invariant r < |h.points| && NoDropBefore(h, r)
      decreases |h.points| - r
    {
      r := r + 1;
    }
  }

  /** No reset is seen exactly when no point drops below what was exported before it. */
  lemma NoResetIff(h: History)
    ensures (forall i: nat :: i < |h.points| ==> !h.SeenAsReset(i)) <==> NoDropBefore(h, |h.points|)
  {
    if NoDropBefore(h, |h.points|) {
      forall i: nat | i < |h.points| ensures !h.SeenAsReset(i) {
        assert NoDropBefore(h, i);
        NoneSeenBefore(h, i);
      }
    } else {
      var r := LeastDrop(h);
      NoneSeenBefore(h, r);
    }
  }

  /** Whatever point was seen as a reset, every value after it is exported as it came. */
  ghost predicate UnmodifiedAfterResets(h: History, outcomes: seq<Outcome>) {
    forall r: nat :: r < |h.points| && h.SeenAsReset(r) ==> RawSince(outcomes, h.points, r)
  }

  lemma UnmodifiedSinceFirst(h: History, outcomes: seq<Outcome>, first: nat)
    requires IsFirstDrop(h, first)
    ensures UnmodifiedAfterResets(h, outcomes) <==> RawSince(outcomes, h.points, first)
  {
    NoneSeenBefore(h, first);
    if RawSince(outcomes, h.points, first) {
      forall r: nat | r < |h.points| && h.SeenAsReset(r) ensures RawSince(outcomes, h.points, r) {
        assert r >= first;
      }
    }
  }

  /** There is no first drop, or from it on all is harmless. */
  ghost predicate HarmlessFromFirstDrop(h: History) {
    forall r: nat :: IsFirstDrop(h, r) ==> AllHarmless(h, r, |h.points|)
  }

  lemma FirstDropIsUnique(h: History, r: nat)
    requires IsFirstDrop(h, r)
    ensures HarmlessFromFirstDrop(h) <==> AllHarmless(h, r, |h.points|)
  {
    forall s: nat | IsFirstDrop(h, s) ensures s == r {
      assert !(s < r) && !(r < s);
    }
  }

  lemma RawSinceDropIff(h: History, r: nat)
    requires Shaped(h.points, h.base) && IsFirstDrop(h, r)
    ensures h.SeenAsReset(r) && (AllRaw(h, r, |h.points|) <==> AllHarmless(h, r, |h.points|))
  {
    NoneSeenBefore(h, r);
    RawSinceIff(h, r, |h.points|);
  }

  lemma UnmodifiedIff(h: History, outcomes: seq<Outcome>)
    requires Shaped(h.points, h.base) && Explains(h, outcomes)
    ensures UnmodifiedAfterResets(h, outcomes) <==> HarmlessFromFirstDrop(h)
  {
    if NoDropBefore(h, |h.points|) {
      NoResetIff(h);
      forall r: nat | r < |h.points| ensures h.SeenAsReset(r) ==> RawSince(outcomes, h.points, r) {
        assert !h.SeenAsReset(r);
      }
      assert HarmlessFromFirstDrop(h);
    } else {
      var r := LeastDrop(h);
      UnmodifiedSinceFirst(h, outcomes, r);
      RawSinceMeans(h, outcomes, r);
      RawSinceDropIff(h, r);
      FirstDropIsUnique(h, r);
    }
  }

  /** The promise over every timely run of every kind of series: it is kept exactly when
      there is no first drop, or every point after it is one from which the first point
      takes nothing, or a reset next to the raw value before it. */
  lemma UnmodifiedAfterResetsIff(events: seq<Event>, kind: Kind)
    requires OfKind(Pushes(events), kind) && Regular(Pushes(events)) && Timely(events) && Pushes(events) != []
    ensures var h := FreshHistory(Pushes(events), Losses(events));
      UnmodifiedAfterResets(h, Run(NOTHING, events, kind).outcomes) <==> HarmlessFromFirstDrop(h)
  {
    FreshRun(events, kind);
    UnmodifiedIff(FreshHistory(Pushes(events), Losses(events)), Run(NOTHING, events, kind).outcomes);
  }

  /** If there is a first drop at r, it is exported as a reset, and all later values are raw
      exactly when they are harmless. */
  lemma RawAfterFirstResetIff(events: seq<Event>, kind: Kind, r: nat)
    requires OfKind(Pushes(events), kind) && Regular(Pushes(events)) && Timely(events) && Pushes(events) != []
    requires IsFirstDrop(FreshHistory(Pushes(events), Losses(events)), r)
    ensures var h, outcomes := FreshHistory(Pushes(events), Losses(events)), Run(NOTHING, events, kind).outcomes;
      && outcomes[r] == Normalization.Kept(ResetPoint(h.points[r]))
      && (RawSince(outcomes, h.points, r) <==> AllHarmless(h, r, |h.points|))
  {
    var h := FreshHistory(Pushes(events), Losses(events));
    FreshRun(events, kind);
    RawSinceMeans(h, Run(NOTHING, events, kind).outcomes, r);
    RawSinceDropIff(h, r);
  }

  // ---------- the promise at concrete inputs ----------

  function Integer(i: int64): Data {
    NumberData(IntValue(i))
  }

  function Double(d: real): Data {
    NumberData(DoubleValue(d))
  }

  /** A histogram with one bucket. */
  function OneBucket(count: uint64, sum: real): Data {
    HistogramData(HistogramFields(count, Some(sum), [count], []))
  }

  /** Integers 10, 5, 7: the fall to 5 is seen as a reset, and the 7 after it is exported as -3. */
  lemma IntegerIsModified()
    ensures ExportsTwo(ThreePushes(Integer(10), Integer(5), Integer(7)),
                       At(20, Integer(5)).(start := 19 * MILLISECOND), At(30, Integer(-3)).(start := 19 * MILLISECOND))
  {
    ThreeOutcomes(Integer(10), Integer(5), Integer(7), Integer(5), Integer(-3), 19);
  }

  lemma DoubleIsModified()
    ensures ExportsTwo(ThreePushes(Double(10.0), Double(5.0), Double(7.0)),
                       At(20, Double(5.0)).(start := 19 * MILLISECOND), At(30, Double(-3.0)).(start := 19 * MILLISECOND))
  {
    ThreeOutcomes(Double(10.0), Double(5.0), Double(7.0), Double(5.0), Double(-3.0), 19);
  }

  /** Two observations of 10 in all, then one of 4, then two of 6 in all: the last sum is
      exported as -4. */
  lemma HistogramSumIsModified()
    ensures ExportsTwo(ThreePushes(OneBucket(2, 10.0), OneBucket(1, 4.0), OneBucket(2, 6.0)),
                       At(20, OneBucket(1, 4.0)).(start := 19 * MILLISECOND),
                       At(30, OneBucket(2, -4.0)).(start := 19 * MILLISECOND))
  {
    var a, b, c := OneBucket(2, 10.0), OneBucket(1, 4.0), OneBucket(2, 6.0);
    assert Minus(c, Zero(a, a)) == OneBucket(2, -4.0);
    ThreeOutcomes(a, b, c, b, OneBucket(2, -4.0), 19);
  }
}
