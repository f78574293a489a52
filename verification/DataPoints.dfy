/** Fixed-width integers, timestamps and the contents of the four kinds of
    metric data point, with the operations the normalizer applies to them. */
module DataPoints {

  datatype Option<+T> = None | Some(value: T) {
    function GetOr(default: T): T {
      if Some? then value else default
    }
  }

  const TWO_31: int := 0x8000_0000
  const TWO_32: int := 0x1_0000_0000
  const TWO_63: int := 0x8000_0000_0000_0000
  const TWO_64: int := 0x1_0000_0000_0000_0000

  type uint64 = x: int | 0 <= x < TWO_64
  type int64 = x: int | -TWO_63 <= x < TWO_63
  type int32 = x: int | -TWO_31 <= x < TWO_31

  function WrapU64(x: int): uint64 {
    x % TWO_64
  }

  function WrapI64(x: int): int64 {
    (x + TWO_63) % TWO_64 - TWO_63
  }

  function WrapI32(x: int): int32 {
    (x + TWO_31) % TWO_32 - TWO_31
  }

  /** Wrapping gives the number of the type that is the same modulo its width. */
  lemma WrapU64Is(x: int)
    ensures (WrapU64(x) - x) % 0x1_0000_0000_0000_0000 == 0
  {
    assert WrapU64(x) - x == -(x / TWO_64) * TWO_64;
  }

  lemma WrapI64Is(x: int)
    ensures (WrapI64(x) - x) % 0x1_0000_0000_0000_0000 == 0
  {
    assert WrapI64(x) - x == -((x + TWO_63) / TWO_64) * TWO_64;
  }

  lemma WrapI32Is(x: int)
    ensures (WrapI32(x) - x) % 0x1_0000_0000 == 0
  {
    assert WrapI32(x) - x == -((x + TWO_31) / TWO_32) * TWO_32;
  }

  // ---------- time ----------

  /** One millisecond in nanoseconds. */
  const MILLISECOND: int := 1_000_000

  /** A timestamp is an unsigned count of nanoseconds, but AsTime reads it as a
      signed one. */
  function AsTime(t: uint64): int64 {
    if t < TWO_63 then t else t - TWO_64
  }

  lemma TimeIsSigned(t: uint64)
    ensures (AsTime(t) - t) % 0x1_0000_0000_0000_0000 == 0
  {
  }

  predicate Before(a: uint64, b: uint64) {
    AsTime(a) < AsTime(b)
  }

  // ---------- contents of a point ----------

  datatype Kind = Number | Summary | Histogram | ExponentialHistogram

  datatype Value = Unset | IntValue(i: int64) | DoubleValue(d: real) {
    /** The getters answer zero when the value has the other type. */
    function AsInt(): int64 {
      if IntValue? then i else 0
    }

    function AsDouble(): real {
      if DoubleValue? then d else 0.0
    }
  }

  /** counts[i] belongs to the absolute bucket index offset + i. */
  datatype Buckets = Buckets(offset: int32, counts: seq<uint64>)

  datatype SummaryFields = SummaryFields(count: uint64, sum: real)

  datatype HistogramFields = HistogramFields(
    count: uint64, sum: Option<real>, bucketCounts: seq<uint64>, bounds: seq<real>)

  datatype ExponentialFields = ExponentialFields(
    count: uint64, sum: Option<real>, zeroCount: uint64, scale: int32,
    positive: Buckets, negative: Buckets, zeroThreshold: real)

  datatype Data =
    | NumberData(n: Value)
    | SummaryData(s: SummaryFields)
    | HistogramData(h: HistogramFields)
    | ExponentialData(e: ExponentialFields)
  {
    function Kind(): Kind {
      match this
      case NumberData(_) => Number
      case SummaryData(_) => Summary
      case HistogramData(_) => Histogram
      case ExponentialData(_) => ExponentialHistogram
    }

    /** OTLP: n explicit bounds separate n + 1 buckets. */
    predicate WellFormed() {
      HistogramData? ==> |h.bucketCounts| == |h.bounds| + 1
    }

    /** Sum() of a point: an absent sum reads as zero. */
    function Sum(): real {
      match this
      case NumberData(_) => 0.0
      case SummaryData(s) => s.sum
      case HistogramData(h) => h.sum.GetOr(0.0)
      case ExponentialData(e) => e.sum.GetOr(0.0)
    }

    function Count(): uint64 {
      match this
      case NumberData(_) => 0
      case SummaryData(s) => s.count
      case HistogramData(h) => h.count
      case ExponentialData(e) => e.count
    }

    /** The same point with another sum; a number has none. */
    function WithSum(sum: real): Data {
      match this
      case NumberData(_) => this
      case SummaryData(s) => SummaryData(s.(sum := sum))
      case HistogramData(h) => HistogramData(h.(sum := Some(sum)))
      case ExponentialData(e) => ExponentialData(e.(sum := Some(sum)))
    }
  }

  /** A freshly allocated point of the given kind. */
  function EmptyData(kind: Kind): (d: Data)
    ensures d.Kind() == kind
  {
    match kind
    case Number => NumberData(Unset)
    case Summary => SummaryData(SummaryFields(0, 0.0))
    case Histogram => HistogramData(HistogramFields(0, None, [], []))
    case ExponentialHistogram =>
      ExponentialData(ExponentialFields(0, None, 0, 0, Buckets(0, []), Buckets(0, []), 0.0))
  }

  /** What a cached point holds after a minimal copy of src onto dest: a number is
      overwritten only if src has a value, a sum only if src has one. */
  function CopyInto(src: Data, dest: Data): (d: Data)
    requires src.Kind() == dest.Kind()
    ensures d.Kind() == src.Kind()
    ensures src.WellFormed() ==> d.WellFormed()
  {
    match src
    case NumberData(n) => if n.Unset? then dest else src
    case SummaryData(_) => src
    case HistogramData(h) => if h.sum.None? then HistogramData(h.(sum := dest.h.sum)) else src
    case ExponentialData(e) => if e.sum.None? then ExponentialData(e.(sum := dest.e.sum)) else src
  }

  /** Two points of one series can be subtracted only if their buckets mean the same. */
  predicate Comparable(a: Data, b: Data) {
    && a.Kind() == b.Kind()
    && (a.HistogramData? ==> a.h.bounds == b.h.bounds)
    && (a.ExponentialData? ==> a.e.scale == b.e.scale)
  }

  /** The zero-valued point that is written over the start point after a reset. */
  function ZeroData(p: Data): (d: Data)
    ensures d.Kind() == p.Kind()
    ensures p.WellFormed() ==> d.WellFormed()
  {
    match p
    case NumberData(_) => EmptyData(Number)
    case SummaryData(_) => EmptyData(Summary)
    case HistogramData(h) =>
      HistogramData(HistogramFields(0, None, seq(|h.bucketCounts|, _ => 0), h.bounds))
    case ExponentialData(e) => ExponentialData(EmptyData(ExponentialHistogram).e.(scale := e.scale))
  }

  /** a < b, as the reset test reads it. */
  predicate LessThan(a: Data, b: Data)
    requires a.Kind() == b.Kind()
  {
    match a
    case NumberData(n) =>
      (match n
       case Unset => false
       case IntValue(i) => i < b.n.AsInt()
       case DoubleValue(d) => d < b.n.AsDouble())
    case _ => a.Count() < b.Count() || a.Sum() < b.Sum()
  }

  function SubtractValue(a: Value, b: Value): Value {
    match a
    case Unset => Unset
    case IntValue(i) => IntValue(WrapI64(i - b.AsInt()))
    case DoubleValue(d) => DoubleValue(d - b.AsDouble())
  }

  function SubtractU64(a: uint64, b: uint64): uint64 {
    WrapU64(a - b)
  }

  function SubtractCounts(a: seq<uint64>, b: seq<uint64>): (counts: seq<uint64>)
    requires |a| == |b|
    ensures |counts| == |a|
  {
    seq(|a|, i requires 0 <= i < |a| => SubtractU64(a[i], b[i]))
  }

  /** Bucket i of a meets bucket i + (a.offset - b.offset) of b, if there is one. */
  function SubtractAligned(a: Buckets, b: Buckets): (counts: seq<uint64>)
    ensures |counts| == |a.counts|
  {
    var shift := WrapI32(a.offset - b.offset);
    seq(|a.counts|, i requires 0 <= i < |a.counts| =>
      if 0 <= i + shift < |b.counts| then SubtractU64(a.counts[i], b.counts[i + shift]) else a.counts[i])
  }

  /** a - b in the machine arithmetic of the program. */
  function SubtractData(a: Data, b: Data): (d: Data)
    requires Comparable(a, b) && a.WellFormed() && b.WellFormed()
    ensures Comparable(d, a) && d.WellFormed()
  {
    match a
    case NumberData(n) => NumberData(SubtractValue(n, b.n))
    case SummaryData(s) => SummaryData(SummaryFields(SubtractU64(s.count, b.s.count), s.sum - b.s.sum))
    case HistogramData(h) =>
      HistogramData(HistogramFields(SubtractU64(h.count, b.h.count), Some(a.Sum() - b.Sum()),
                                    SubtractCounts(h.bucketCounts, b.h.bucketCounts), h.bounds))
    case ExponentialData(e) =>
      ExponentialData(ExponentialFields(
        SubtractU64(e.count, b.e.count), Some(a.Sum() - b.Sum()), SubtractU64(e.zeroCount, b.e.zeroCount),
        e.scale,
        e.positive.(counts := SubtractAligned(e.positive, b.e.positive)),
        e.negative.(counts := SubtractAligned(e.negative, b.e.negative)),
        e.zeroThreshold))
  }

  // ---------- what those operations mean ----------

  /** src brings whatever a minimal copy onto dest should overwrite. */
  predicate Overwrites(src: Data, dest: Data)
    requires src.Kind() == dest.Kind()
  {
    match src
    case NumberData(n) => n != Unset || dest.n == Unset
    case SummaryData(_) => true
    case HistogramData(h) => h.sum.Some? || dest.h.sum.None?
    case ExponentialData(e) => e.sum.Some? || dest.e.sum.None?
  }

  /** Overwriting a cached point in place gives the same result as storing a fresh
      minimal copy exactly when src carries what it overwrites, or nothing was there. */
  lemma InPlaceCopyIsFreshCopyIff(src: Data, dest: Data)
    requires src.Kind() == dest.Kind()
    ensures CopyInto(src, dest) == CopyInto(src, EmptyData(src.Kind())) <==> Overwrites(src, dest)
  {
  }

  /** What the start slot holds after a reset at p: the zero point, written over prior. */
  function AfterReset(p: Data, prior: Data): (d: Data)
    requires p.Kind() == prior.Kind()
    ensures d.Kind() == p.Kind()
    ensures p.WellFormed() ==> d.WellFormed()
  {
    CopyInto(ZeroData(p), prior)
  }

  /** The reset left nothing of prior behind that a later point a would be reduced by. */
  predicate NoResidue(a: Data, prior: Data)
    requires a.Kind() == prior.Kind()
  {
    match a
    case NumberData(n) =>
      (match n
       case Unset => true
       case IntValue(_) => prior.n.AsInt() == 0
       case DoubleValue(_) => prior.n.AsDouble() == 0.0)
    case SummaryData(_) => true
    case HistogramData(h) => h.sum.Some? && prior.Sum() == 0.0
    case ExponentialData(e) => e.sum.Some? && prior.Sum() == 0.0
  }

  /** A start point that takes nothing from counts and buckets. */
  predicate Zeroed(z: Data) {
    match z
    case NumberData(_) => false
    case SummaryData(s) => s.count == 0 && s.sum == 0.0
    case HistogramData(h) => h.count == 0 && h.bucketCounts == seq(|h.bucketCounts|, _ => 0)
    case ExponentialData(e) => e.count == 0 && e.zeroCount == 0 && e.positive.counts == [] && e.negative.counts == []
  }

  lemma AfterResetIsZeroed(p: Data, prior: Data)
    requires p.Kind() == prior.Kind()
    ensures Zeroed(AfterReset(p, prior)) <==> !p.NumberData?
    ensures !p.NumberData? && !p.SummaryData? ==> AfterReset(p, prior).Sum() == prior.Sum()
  {
  }

  /** Against a zeroed start point every count and bucket is exported raw, and so is a
      summary's sum; a histogram's sum is reduced by the sum left in the start point. */
  lemma SubtractZeroed(a: Data, z: Data)
    requires Zeroed(z) && Comparable(a, z) && a.WellFormed() && z.WellFormed()
    ensures SubtractData(a, z) == a.WithSum(a.Sum() - z.Sum())
    ensures a.SummaryData? ==> SubtractData(a, z) == a
  {
    match a
    case SummaryData(_) =>
    case HistogramData(h) =>
      assert SubtractCounts(h.bucketCounts, z.h.bucketCounts) == h.bucketCounts;
    case ExponentialData(e) =>
      assert SubtractAligned(e.positive, z.e.positive) == e.positive.counts;
      assert SubtractAligned(e.negative, z.e.negative) == e.negative.counts;
  }

  /** The normalizer's documentation says that values are not modified after a reset.
      That holds exactly when the start point that the reset replaced had no residue. */
  lemma UntouchedAfterResetIff(a: Data, p: Data, prior: Data)
    requires Comparable(a, p) && Comparable(p, prior)
    requires a.WellFormed() && p.WellFormed()
    ensures Comparable(a, AfterReset(p, prior))
    ensures SubtractData(a, AfterReset(p, prior)) == a <==> NoResidue(a, prior)
  {
    match a
    case NumberData(_) =>
    case _ =>
      AfterResetIsZeroed(p, prior);
      SubtractZeroed(a, AfterReset(p, prior));
  }
}
