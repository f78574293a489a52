/** The per-series state machine of the cumulative-point normalizer: what one call
    decides for a point, given what the two caches hold for its series. */
module Normalization {
  import opened DataPoints

  /** A point as the caller passes it in, or as it is exported. */
  datatype Point = Point(start: uint64, time: uint64, data: Data)

  /** A cached point. The caches keep no start timestamp. */
  datatype Slot = Slot(time: uint64, data: Data, used: bool)

  datatype Series = Series(start: Option<Slot>, previous: Option<Slot>)

  datatype Outcome = Dropped | Kept(point: Point)

  datatype Result = Result(series: Series, outcome: Outcome)

  // ---------- the caches, seen from one series ----------

  /** Get marks a cached point as used. */
  function Touch(s: Option<Slot>): Option<Slot> {
    if s.Some? then Some(s.value.(used := true)) else None
  }

  /** Set overwrites a cached point in place, or stores a minimal copy. */
  function Put(s: Option<Slot>, p: Point): Slot
    requires s.Some? ==> s.value.data.Kind() == p.data.Kind()
  {
    Slot(p.time, CopyInto(p.data, if s.Some? then s.value.data else EmptyData(p.data.Kind())), true)
  }

  /** A tick deletes a point that was not used since the tick before it. */
  function Collect(s: Option<Slot>): Option<Slot> {
    if s.Some? && s.value.used then Some(s.value.(used := false)) else None
  }

  // ---------- one call ----------

  /** The caller set a start time that is not before the point's time. */
  predicate ExplicitReset(p: Point) {
    !Before(p.start, p.time)
  }

  predicate StartUnknown(p: Point) {
    p.start == 0 || ExplicitReset(p)
  }

  predicate DetectsReset(p: Point, previous: Data)
    requires p.data.Kind() == previous.Kind()
  {
    ExplicitReset(p) || (p.start == 0 && LessThan(p.data, previous))
  }

  /** The reset is taken to have happened a millisecond before the point. */
  function ResetPoint(p: Point): Point {
    p.(start := WrapU64(p.time - MILLISECOND))
  }

  /** The unsigned subtraction is right on signed times that are not the very first ones. */
  lemma ResetPointStart(p: Point)
    requires -TWO_63 + MILLISECOND <= AsTime(p.time)
    ensures AsTime(ResetPoint(p).start) == AsTime(p.time) - MILLISECOND
  {
  }

  predicate SlotFits(s: Option<Slot>, kind: Kind) {
    s.Some? ==> s.value.data.Kind() == kind && s.value.data.WellFormed()
  }

  predicate Fits(s: Series, kind: Kind) {
    SlotFits(s.start, kind) && SlotFits(s.previous, kind)
  }

  /** The data the reset test compares with: the previous point, or the start point
      if the previous one has been collected. */
  function PreviousData(s: Series): Data
    requires s.start.Some?
  {
    if s.previous.Some? then s.previous.value.data else s.start.value.data
  }

  /** The point becomes the new start of its series and is dropped. */
  function Rebase(s: Series, p: Point): Result
    requires Fits(s, p.data.Kind())
  {
    Result(Series(Some(Put(s.start, p)), Some(Put(s.previous, p))), Dropped)
  }

  /** The point is kept with its value; a zero point at its new start time becomes the
      start of the series. */
  function ResetAt(s: Series, p: Point): Result
    requires Fits(s, p.data.Kind())
  {
    var q := ResetPoint(p);
    var zero := Point(0, q.start, ZeroData(p.data));
    Result(Series(Some(Put(s.start, zero)), Some(Put(s.previous, q))), Kept(q))
  }

  function Difference(s: Series, p: Point): Point
    requires s.start.Some? && Fits(s, p.data.Kind()) && p.data.WellFormed()
    requires Comparable(p.data, s.start.value.data)
  {
    Point(s.start.value.time, p.time, SubtractData(p.data, s.start.value.data))
  }

  /** The point is kept, reduced by the start point. */
  function Reduce(s: Series, p: Point): Result
    requires s.start.Some? && Fits(s, p.data.Kind()) && p.data.WellFormed()
    requires Comparable(p.data, s.start.value.data)
  {
    var q := Difference(s, p);
    Result(Series(Touch(s.start), Some(Put(s.previous, q))), Kept(q))
  }

  function Decide(s: Series, p: Point): (r: Result)
    requires Fits(s, p.data.Kind()) && p.data.WellFormed()
    ensures Fits(r.series, p.data.Kind())
    ensures r.outcome.Kept? ==> r.outcome.point.data.WellFormed() && r.outcome.point.data.Kind() == p.data.Kind()
  {
    if s.start.None? then
      if StartUnknown(p) then Rebase(s, p) else Result(s, Kept(p))
    else if !Comparable(p.data, s.start.value.data) then Rebase(s, p)
    else if DetectsReset(p, PreviousData(s)) then ResetAt(s, p)
    else if !Before(s.start.value.time, p.time) then
      Result(Series(Touch(s.start), Touch(s.previous)), Dropped)
    else Reduce(s, p)
  }

  /** Decisions do not depend on the used flags. */
  lemma StartFlagIsInvisible(s: Series, p: Point)
    requires Fits(s, p.data.Kind()) && p.data.WellFormed() && s.start.Some?
    ensures Decide(Series(Touch(s.start), s.previous), p) == Decide(s, p)
  {
  }

  lemma PreviousFlagIsInvisible(s: Series, p: Point)
    requires Fits(s, p.data.Kind()) && p.data.WellFormed() && s.start.Some?
    ensures ResetAt(Series(s.start, Touch(s.previous)), p) == ResetAt(s, p)
    ensures Comparable(p.data, s.start.value.data) ==>
      Reduce(Series(s.start, Touch(s.previous)), p) == Reduce(s, p)
  {
  }
}
