/** Summaries that rise and fall at will: exactly when every fall is detected. */
module Summaries {
  import opened DataPoints
  import opened Normalization
  import opened Runs
  import opened CachePresence
  import opened ClosedForm
  import opened ResetPromise
  import opened ExportedIntervals

  /** Summaries without start times and without negative sums, a millisecond apart. */
  ghost predicate SummarySeries(points: seq<Point>) {
    && points != [] && Regular(points) && Rising(points)
    && (forall i :: 0 <= i < |points| ==> points[i].start == 0 && Before(0, points[i].time))
    && (forall i :: 0 <= i < |points| ==> points[i].data.SummaryData? && points[i].data.s.sum >= 0.0)
  }

  ghost predicate IsSummary(h: History) {
    && SummarySeries(h.points) && h.base == h.points[0].data && h.begin == h.points[0].time
    && |h.lost| == |h.points|
  }

  /** The count or the sum fell. */
  predicate Falls(h: History, i: nat)
    requires i < |h.points|
  {
    i > 0 && h.points[i].data.Kind() == h.points[i - 1].data.Kind() && LessThan(h.points[i].data, h.points[i - 1].data)
  }

  ghost predicate NoFallBefore(h: History, k: nat)
    requires k <= |h.points|
  {
    forall i: nat :: i < k ==> !Falls(h, i)
  }

  // ---------- before the first fall, and after a reset ----------

  lemma {:induction false} NeverBelowFirst(h: History, k: nat, i: nat)
    requires IsSummary(h) && i < k <= |h.points| && NoFallBefore(h, k)
    ensures h.points[0].data.Count() <= h.points[i].data.Count() && h.points[0].data.Sum() <= h.points[i].data.Sum()
  {
    if i > 0 {
      NeverBelowFirst(h, k, i - 1);
      assert !Falls(h, i) && h.points[i].data.SummaryData? && h.points[i - 1].data.SummaryData?;
    }
  }

  lemma NoDropWithoutFall(h: History, k: nat, i: nat)
    requires IsSummary(h) && i < k <= |h.points| && NoFallBefore(h, k)
    ensures !Drops(h, i)
  {
    if i > 0 {
      NeverBelowFirst(h, k, i);
      NeverBelowFirst(h, k, i - 1);
      assert !Falls(h, i) && h.points[i].start == 0 && Before(0, h.points[i].time);
      assert h.points[0].data.SummaryData? && h.points[i].data.SummaryData? && h.points[i - 1].data.SummaryData?;
      assert h.points[0].data.s.sum >= 0.0;
    }
  }

  /** The first fall is seen exactly when it drops below what was exported before it. */
  lemma FirstFallSeenIff(h: History, k: nat)
    requires IsSummary(h) && k < |h.points| && NoFallBefore(h, k)
    ensures h.SeenAsReset(k) <==> Drops(h, k)
  {
    forall i: nat | i < k ensures !Drops(h, i) {
      NoDropWithoutFall(h, k, i);
    }
    NoneSeenBefore(h, k);
  }

  lemma {:induction false} RawSinceReset(h: History, r: nat, i: nat)
    requires IsSummary(h) && r <= i < |h.points| && h.SeenAsReset(r)
    ensures h.StartData(i) == EmptyData(Summary) && h.Exported(i) == h.points[i].data
  {
    assert h.points[0].data.SummaryData? && h.points[i].data.SummaryData?;
    if r < i {
      RawSinceReset(h, r, i - 1);
      SubtractZeroed(h.points[i].data, EmptyData(Summary));
    }
  }

  /** After a reset every fall is seen, unless the point before it is lost. */
  lemma LaterFallSeenIff(h: History, r: nat, k: nat)
    requires IsSummary(h) && r < k < |h.points| && h.SeenAsReset(r)
    ensures h.SeenAsReset(k) <==> Falls(h, k) && !h.Lost(k)
  {
    RawSinceReset(h, r, k - 1);
    assert h.points[k].start == 0 && Before(0, h.points[k].time);
    assert h.points[k].data.SummaryData? && h.points[k].data.s.sum >= 0.0 && h.points[k - 1].data.SummaryData?;
  }

  // ---------- every fall ----------

  /** The first fall is deep enough; a later one finds the point before it. */
  predicate FallShows(h: History, k: nat, first: bool)
    requires k < |h.points|
  {
    if first then Drops(h, k) else !h.Lost(k)
  }

  ghost predicate FallsShow(h: History) {
    forall k: nat :: k < |h.points| && Falls(h, k) ==> FallShows(h, k, NoFallBefore(h, k))
  }

  predicate SeenAt(h: History, k: nat)
    requires k < |h.points|
  {
    Falls(h, k) ==> h.SeenAsReset(k)
  }

  lemma {:induction false} SeenIfShown(h: History, k: nat)
    requires IsSummary(h) && FallsShow(h) && k < |h.points|
    ensures SeenAt(h, k)
  {
    if Falls(h, k) {
      assert FallShows(h, k, NoFallBefore(h, k));
      if NoFallBefore(h, k) {
        FirstFallSeenIff(h, k);
      } else {
        var j: nat :| j < k && Falls(h, j);
        SeenIfShown(h, j);
        LaterFallSeenIff(h, j, k);
      }
    }
  }

  lemma ShownIfSeen(h: History, k: nat)
    requires IsSummary(h) && k < |h.points| && Falls(h, k) && forall i: nat :: i < |h.points| ==> SeenAt(h, i)
    ensures FallShows(h, k, NoFallBefore(h, k))
  {
    assert SeenAt(h, k);
    if NoFallBefore(h, k) {
      FirstFallSeenIff(h, k);
    } else {
      var j: nat :| j < k && Falls(h, j);
      assert SeenAt(h, j);
      LaterFallSeenIff(h, j, k);
    }
  }

  // ---------- what is exported ----------

  lemma {:induction false} StartsBefore(h: History, i: nat)
    requires IsSummary(h) && i < |h.points|
    ensures if i == 0 then h.StartTime(0) == h.points[0].time
            else AsTime(h.StartTime(i)) < AsTime(h.points[i].time)
  {
    if i > 0 {
      StartsBefore(h, i - 1);
      ResetPointStart(h.points[i]);
      assert Before(h.points[i - 1].time, h.points[i].time);
    }
  }

  /** A fall is exported as a reset exactly when it is seen as one. */
  lemma ResetShown(h: History, i: nat)
    requires IsSummary(h) && i < |h.points| && Falls(h, i)
    ensures h.ExportedPoint(i) == ResetPoint(h.points[i]) <==> h.SeenAsReset(i)
  {
    if i == 1 {
      assert h.points[1].start == 0 && Before(0, h.points[1].time);
      assert h.Reference(1) == h.points[0].data;
    } else {
      StartsBefore(h, i - 1);
      ResetPointStart(h.points[i]);
      assert AsTime(h.points[i - 1].time) + MILLISECOND <= AsTime(h.points[i].time);
    }
  }

  ghost predicate FallsDetected(outcomes: seq<Outcome>, h: History) {
    && |outcomes| == |h.points|
    && forall i: nat :: i < |h.points| && Falls(h, i) ==> outcomes[i] == Normalization.Kept(ResetPoint(h.points[i]))
  }

  lemma DetectedIffSeen(h: History, outcomes: seq<Outcome>)
    requires IsSummary(h) && Explains(h, outcomes)
    ensures FallsDetected(outcomes, h) <==> forall i: nat :: i < |h.points| ==> SeenAt(h, i)
  {
    forall i: nat | i < |h.points| && Falls(h, i)
      ensures outcomes[i] == Normalization.Kept(ResetPoint(h.points[i])) <==> SeenAt(h, i)
    {
      ResetShown(h, i);
    }
  }

  lemma AllFallsSeenIff(h: History)
    requires IsSummary(h)
    ensures (forall i: nat :: i < |h.points| ==> SeenAt(h, i)) <==> FallsShow(h)
  {
    if FallsShow(h) {
      forall i: nat | i < |h.points| ensures SeenAt(h, i) {
        SeenIfShown(h, i);
      }
    } else if forall i: nat :: i < |h.points| ==> SeenAt(h, i) {
      var k: nat :| k < |h.points| && Falls(h, k) && !FallShows(h, k, NoFallBefore(h, k));
      ShownIfSeen(h, k);
      assert false;
    }
  }

  /** Over every timely run of a summary: every fall is exported as a reset exactly when the
      first one drops below what was exported before it and no later one is lost. */
  lemma AllFallsDetectedIff(events: seq<Event>)
    requires OfKind(Pushes(events), Summary) && SummarySeries(Pushes(events)) && Timely(events)
    ensures var h := FreshHistory(Pushes(events), Losses(events));
      FallsDetected(Run(NOTHING, events, Summary).outcomes, h) <==> FallsShow(h)
  {
    var h := FreshHistory(Pushes(events), Losses(events));
    FreshRun(events, Summary);
    DetectedIffSeen(h, Run(NOTHING, events, Summary).outcomes);
    AllFallsSeenIff(h);
  }

  /** Sums 10, 30, 25 of as many observations: the fall to 25 is not seen. */
  lemma FallIsMissed()
    ensures ExportsTwo(ThreePushes(SummaryOf(10), SummaryOf(30), SummaryOf(25)),
                       At(20, SummaryOf(20)).(start := 10 * MILLISECOND),
                       At(30, SummaryOf(15)).(start := 10 * MILLISECOND))
  {
    ThreeOutcomes(SummaryOf(10), SummaryOf(30), SummaryOf(25), SummaryOf(20), SummaryOf(15), 10);
  }

  function SummaryOf(count: uint64): Data {
    SummaryData(SummaryFields(count, count as real))
  }
}
