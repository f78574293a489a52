/** Exponential histograms: subtraction at absolute bucket indices, and the exported
    distribution. */
module ExponentialHistograms {
  import opened DataPoints

  // ---------- absolute bucket indices ----------

  /** The count at an absolute bucket index, zero outside the stored range. */
  function At(b: Buckets, k: int): uint64 {
    if b.offset <= k < b.offset + |b.counts| then b.counts[k - b.offset] else 0
  }

  /** A bucket count takes at least one byte of a protobuf message, and a message is
      shorter than 2^31 bytes. */
  predicate Encodable(b: Buckets) {
    |b.counts| < TWO_31
  }

  ghost predicate Dominates(a: Buckets, b: Buckets) {
    forall k :: At(b, k) <= At(a, k)
  }

  ghost predicate ExactDifference(d: Buckets, a: Buckets, b: Buckets) {
    forall k :: At(d, k) == At(a, k) - At(b, k)
  }

  function SubtractBuckets(a: Buckets, b: Buckets): Buckets {
    a.(counts := SubtractAligned(a, b))
  }

  /** The offset difference is taken in 32 bits. It wraps only if the two ranges have
      nothing in common. */
  lemma ShiftIsExact(a: Buckets, b: Buckets, k: int)
    requires Encodable(a) && Encodable(b)
    requires a.offset <= k < a.offset + |a.counts| && b.offset <= k < b.offset + |b.counts|
    ensures WrapI32(a.offset - b.offset) == a.offset - b.offset
  {
  }

  /** Every bucket of a is reduced modulo 2^64, by the bucket of b with the same index as
      long as the offsets differ by a 32-bit number; otherwise by one 2^32 indices off. */
  lemma BucketDifference(a: Buckets, b: Buckets, k: int)
    requires a.offset <= k < a.offset + |a.counts|
    ensures var off := WrapI32(a.offset - b.offset) - (a.offset - b.offset);
      && (At(SubtractBuckets(a, b), k) - (At(a, k) - At(b, k + off))) % TWO_64 == 0
      && (off == 0 <==> -TWO_31 <= a.offset - b.offset < TWO_31) && (off == 0 || off == TWO_32 || off == -TWO_32)
  {
    var i, shift := k - a.offset, WrapI32(a.offset - b.offset);
    if 0 <= i + shift < |b.counts| {
      WrapU64Is(a.counts[i] as int - b.counts[i + shift] as int);
    }
  }

  lemma DominatedAt(a: Buckets, b: Buckets, k: int)
    requires Encodable(a) && Encodable(b) && Dominates(a, b)
    ensures At(SubtractBuckets(a, b), k) == At(a, k) - At(b, k)
  {
    assert At(b, k) <= At(a, k);
    var shift := WrapI32(a.offset - b.offset);
    var i := k - a.offset;
    if 0 <= i < |a.counts| {
      if b.offset <= k < b.offset + |b.counts| {
        ShiftIsExact(a, b, k);
      } else if 0 <= i + shift < |b.counts| {
        // The shift wrapped: whatever it meets in b must be empty.
        var met := b.offset + i + shift;
        assert At(b, met) <= At(a, met);
        if a.offset <= met < a.offset + |a.counts| {
          ShiftIsExact(a, b, met);
        }
      }
    }
  }

  /** Subtraction is exact at every absolute index exactly when every bucket of b fits
      into the bucket of a with the same bounds. */
  lemma SubtractionIsExactIff(a: Buckets, b: Buckets)
    requires Encodable(a) && Encodable(b)
    ensures ExactDifference(SubtractBuckets(a, b), a, b) <==> Dominates(a, b)
  {
    if Dominates(a, b) {
      forall k ensures At(SubtractBuckets(a, b), k) == At(a, k) - At(b, k) {
        DominatedAt(a, b, k);
      }
    } else {
      var k :| At(b, k) > At(a, k);
      assert At(SubtractBuckets(a, b), k) >= 0;
    }
  }

  // ---------- sums over buckets ----------

  function Total(counts: seq<uint64>): nat {
    if counts == [] then 0 else Total(counts[..|counts| - 1]) + counts[|counts| - 1]
  }

  /** The sum over the absolute indices from lo up to hi. */
  function Window(b: Buckets, lo: int, hi: int): nat
    requires lo <= hi
    decreases hi - lo
  {
    if lo == hi then 0 else Window(b, lo, hi - 1) + At(b, hi - 1)
  }

  lemma {:induction false} WindowOfPrefix(b: Buckets, n: nat)
    requires n <= |b.counts|
    ensures Window(b, b.offset, b.offset + n) == Total(b.counts[..n])
  {
    if n > 0 {
      WindowOfPrefix(b, n - 1);
      assert b.counts[..n][..n - 1] == b.counts[..n - 1];
    }
  }

  lemma TotalIsWindow(b: Buckets)
    ensures Total(b.counts) == Window(b, b.offset, b.offset + |b.counts|)
  {
    WindowOfPrefix(b, |b.counts|);
    assert b.counts[..|b.counts|] == b.counts;
  }

  lemma {:induction false} WindowSplit(b: Buckets, lo: int, mid: int, hi: int)
    requires lo <= mid <= hi
    ensures Window(b, lo, hi) == Window(b, lo, mid) + Window(b, mid, hi)
    decreases hi - mid
  {
    if mid < hi {
      WindowSplit(b, lo, mid, hi - 1);
    }
  }

  lemma {:induction false} EmptyWindow(b: Buckets, lo: int, hi: int)
    requires lo <= hi && forall k :: lo <= k < hi ==> At(b, k) == 0
    ensures Window(b, lo, hi) == 0
    decreases hi - lo
  {
    if lo < hi {
      EmptyWindow(b, lo, hi - 1);
    }
  }

  lemma WindowWithin(b: Buckets, lo: int, lo': int, hi': int, hi: int)
    requires lo <= lo' <= hi' <= hi
    requires forall k :: lo <= k < lo' || hi' <= k < hi ==> At(b, k) == 0
    ensures Window(b, lo, hi) == Window(b, lo', hi')
  {
    WindowSplit(b, lo, lo', hi);
    WindowSplit(b, lo', hi', hi);
    EmptyWindow(b, lo, lo');
    EmptyWindow(b, hi', hi);
  }

  lemma {:induction false} WindowDifference(d: Buckets, a: Buckets, b: Buckets, lo: int, hi: int)
    requires lo <= hi && ExactDifference(d, a, b)
    ensures Window(d, lo, hi) == Window(a, lo, hi) - Window(b, lo, hi)
    decreases hi - lo
  {
    if lo < hi {
      WindowDifference(d, a, b, lo, hi - 1);
      assert At(d, hi - 1) == At(a, hi - 1) - At(b, hi - 1);
    }
  }

  /** The total over a window that contains all of b. */
  lemma TotalInWindow(b: Buckets, lo: int, hi: int)
    requires lo <= b.offset && b.offset + |b.counts| <= hi
    ensures Total(b.counts) == Window(b, lo, hi)
  {
    TotalIsWindow(b);
    WindowWithin(b, lo, b.offset, b.offset + |b.counts|, hi);
  }

  /** No count is lost: not even those of b that lie beyond the range of a. */
  lemma TotalOfDifference(a: Buckets, b: Buckets)
    requires Encodable(a) && Encodable(b) && Dominates(a, b)
    ensures Total(SubtractAligned(a, b)) == Total(a.counts) - Total(b.counts)
  {
    SubtractionIsExactIff(a, b);
    var d := SubtractBuckets(a, b);
    var lo := if a.offset < b.offset then a.offset else b.offset;
    var aEnd, bEnd := a.offset + |a.counts|, b.offset + |b.counts|;
    var hi := if aEnd > bEnd then aEnd else bEnd;
    TotalInWindow(a, lo, hi);
    TotalInWindow(b, lo, hi);
    TotalInWindow(d, lo, hi);
    WindowDifference(d, a, b, lo, hi);
  }

  // ---------- whole points ----------

  /** Every observation is in exactly one bucket. */
  predicate Balanced(e: ExponentialFields) {
    e.count == e.zeroCount + Total(e.positive.counts) + Total(e.negative.counts)
  }

  ghost predicate DominatesPoint(a: ExponentialFields, b: ExponentialFields) {
    && a.scale == b.scale && b.zeroCount <= a.zeroCount
    && Dominates(a.positive, b.positive) && Dominates(a.negative, b.negative)
  }

  predicate EncodablePoint(e: ExponentialFields) {
    Encodable(e.positive) && Encodable(e.negative)
  }

  /** A point that contains everything the start point contains is reduced exactly,
      without wrap-around, and stays balanced. */
  lemma SubtractionKeepsBalance(a: ExponentialFields, b: ExponentialFields)
    requires EncodablePoint(a) && EncodablePoint(b) && Balanced(a) && Balanced(b) && DominatesPoint(a, b)
    ensures SubtractData(ExponentialData(a), ExponentialData(b)).ExponentialData?
    ensures var d := SubtractData(ExponentialData(a), ExponentialData(b)).e;
      && Balanced(d) && d.scale == a.scale
      && d.count == a.count - b.count && d.zeroCount == a.zeroCount - b.zeroCount
      && ExactDifference(d.positive, a.positive, b.positive)
      && ExactDifference(d.negative, a.negative, b.negative)
  {
    SubtractionIsExactIff(a.positive, b.positive);
    SubtractionIsExactIff(a.negative, b.negative);
    TotalOfDifference(a.positive, b.positive);
    TotalOfDifference(a.negative, b.negative);
  }

  // ---------- the exported distribution ----------

  /** Bucket 0 lies below scale; finite bucket i from 1 up is
      [scale * growth^(i-1), scale * growth^i). */
  datatype BucketOptions =
    | Explicit(bounds: seq<real>)
    | Exponential(growth: real, scale: real, numFiniteBuckets: int)

  datatype Distribution = Distribution(
    count: int64, mean: real, bucketCounts: seq<int64>, options: BucketOptions)

  function Power(base: real, n: nat): real {
    if n == 0 then 1.0 else base * Power(base, n - 1)
  }

  lemma {:induction false} PowerIsPositive(base: real, n: nat)
    requires base > 0.0
    ensures Power(base, n) > 0.0
  {
    if n > 0 {
      PowerIsPositive(base, n - 1);
    }
  }

  function IntPower(base: real, n: int): real
    requires base > 0.0
  {
    PowerIsPositive(base, if n < 0 then -n else n);
    if n >= 0 then Power(base, n) else 1.0 / Power(base, -n)
  }

  function Signed(counts: seq<uint64>): seq<int64> {
    seq(|counts|, i requires 0 <= i < |counts| => WrapI64(counts[i]))
  }

  function ExportedCounts(e: ExponentialFields): seq<int64> {
    [WrapI64(WrapU64(e.zeroCount + Total(e.negative.counts)))]
    + Signed(e.positive.counts) + [0]
  }

  /** Everything at or below zero goes into one bucket. */
  method Underflow(e: ExponentialFields) returns (underflow: uint64)
    ensures underflow == WrapU64(e.zeroCount + Total(e.negative.counts))
  {
    underflow := e.zeroCount;
    var negative := e.negative.counts;
    for i := 0 to |negative|
      invariant underflow == WrapU64(e.zeroCount + Total(negative[..i]))
    {
      assert negative[..i + 1][..i] == negative[..i];
      AddWrapped(e.zeroCount + Total(negative[..i]), negative[i]);
      underflow := WrapU64(underflow + negative[i]);
    }
    assert negative[..|negative|] == negative;
  }

  lemma AddWrapped(x: int, y: int)
    ensures WrapU64(WrapU64(x) + y) == WrapU64(x + y)
  {
  }

  method BucketCounts(e: ExponentialFields) returns (counts: array<int64>)
    ensures counts.Length == |e.positive.counts| + 2
    ensures counts[..] == ExportedCounts(e)
  {
    var underflow := Underflow(e);
    var positive := e.positive.counts;
    counts := new int64[|positive| + 2];
    counts[0] := WrapI64(underflow);
    for i := 0 to |positive|
      invariant counts[0] == WrapI64(underflow)
      invariant forall k :: 0 <= k < i ==> counts[k + 1] == WrapI64(positive[k])
    {
      counts[i + 1] := WrapI64(positive[i]);
    }
    counts[counts.Length - 1] := 0;
    forall k | 0 <= k < counts.Length ensures counts[k] == ExportedCounts(e)[k] {
      assert 0 < k <= |positive| ==> counts[k - 1 + 1] == WrapI64(positive[k - 1]);
    }
  }

  function Mean(e: ExponentialFields): real {
    if e.count > 0 then e.sum.GetOr(0.0) / (e.count as real) else 0.0
  }

  lemma MeanTimesCount(e: ExponentialFields)
    requires e.count > 0
    ensures Mean(e) * (e.count as real) == if e.sum.Some? then e.sum.value else 0.0
  {
  }

  // ---------- exported counts add up ----------

  function TotalSigned(counts: seq<int64>): int {
    if counts == [] then 0 else TotalSigned(counts[..|counts| - 1]) + counts[|counts| - 1]
  }

  lemma {:induction false} TotalSignedConcat(a: seq<int64>, b: seq<int64>)
    ensures TotalSigned(a + b) == TotalSigned(a) + TotalSigned(b)
  {
    if b == [] {
      assert a + b == a;
    } else {
      assert (a + b)[..|a + b| - 1] == a + b[..|b| - 1];
      TotalSignedConcat(a, b[..|b| - 1]);
    }
  }

  lemma TotalOfOne(c: int64)
    ensures TotalSigned([c]) == c
  {
    assert [c][..0] == [];
  }

  /** Some count has no signed 64-bit form. */
  ghost predicate Wraps(counts: seq<uint64>) {
    exists i :: 0 <= i < |counts| && counts[i] >= TWO_63
  }

  lemma WrapsSnoc(counts: seq<uint64>)
    requires counts != []
    ensures Wraps(counts) <==> Wraps(counts[..|counts| - 1]) || counts[|counts| - 1] >= TWO_63
    ensures Signed(counts)[..|counts| - 1] == Signed(counts[..|counts| - 1])
  {
    assert forall i :: 0 <= i < |counts| - 1 ==> counts[..|counts| - 1][i] == counts[i];
  }

  /** Conversion to signed counts changes the total only through counts of 2^63 or more,
      and at most one count can be that large. */
  lemma {:induction false} TotalOfSigned(counts: seq<uint64>)
    requires Total(counts) < TWO_64
    ensures Wraps(counts) ==> Total(counts) >= TWO_63
    ensures TotalSigned(Signed(counts)) == Total(counts) - if Wraps(counts) then TWO_64 else 0
  {
    if counts != [] {
      WrapsSnoc(counts);
      TotalOfSigned(counts[..|counts| - 1]);
    }
  }

  /** The bucket at or below zero or a positive one wraps. */
  ghost predicate BucketWraps(e: ExponentialFields) {
    e.zeroCount + Total(e.negative.counts) >= TWO_63 || Wraps(e.positive.counts)
  }

  lemma TotalOfExported(e: ExponentialFields)
    ensures TotalSigned(ExportedCounts(e))
         == WrapI64(WrapU64(e.zeroCount + Total(e.negative.counts))) + TotalSigned(Signed(e.positive.counts))
  {
    var underflow := [WrapI64(WrapU64(e.zeroCount + Total(e.negative.counts)))];
    TotalSignedConcat(underflow + Signed(e.positive.counts), [0]);
    TotalSignedConcat(underflow, Signed(e.positive.counts));
    TotalOfOne(underflow[0]);
    TotalOfOne(0);
  }

  /** low and high are the counts at or below and above zero; wraps says that one of those
      in high loses 2^64. */
  lemma SignedSum(count: uint64, low: nat, high: nat, wraps: bool)
    requires count == low + high && (wraps ==> high >= TWO_63)
    ensures WrapI64(WrapU64(low)) + high - (if wraps then TWO_64 else 0) == WrapI64(count)
       <==> count < TWO_63 || low >= TWO_63 || wraps
  {
    SignedForm(low);
    SignedForm(count);
  }

  lemma SignedForm(x: uint64)
    ensures WrapU64(x) == x && WrapI64(x) == if x < TWO_63 then x else x - TWO_64
  {
  }

  /** The exported buckets of a balanced point add up to its exported count, unless the
      count has no signed 64-bit form and no single bucket wraps with it. */
  lemma ExportedCountsAddUpIff(e: ExponentialFields)
    requires Balanced(e)
    ensures |ExportedCounts(e)| == |e.positive.counts| + 2
    ensures TotalSigned(ExportedCounts(e)) == WrapI64(e.count) <==> e.count < TWO_63 || BucketWraps(e)
  {
    TotalOfExported(e);
    TotalOfSigned(e.positive.counts);
    SignedSum(e.count, e.zeroCount + Total(e.negative.counts), Total(e.positive.counts), Wraps(e.positive.counts));
  }

  // ---------- exported bounds ----------

  lemma IntPowerStep(base: real, n: int)
    requires base > 0.0
    ensures IntPower(base, n + 1) == base * IntPower(base, n)
  {
    if n < 0 {
      PowerIsPositive(base, -n - 1);
      PowerIsPositive(base, -n);
      ReciprocalStep(base, Power(base, -n - 1), Power(base, -n));
    }
  }

  lemma IntPowerOfZero(base: real)
    requires base > 0.0
    ensures IntPower(base, 0) == 1.0
  {
  }

  lemma ReciprocalStep(base: real, q: real, r: real)
    requires base > 0.0 && q > 0.0 && r > 0.0 && r == base * q
    ensures 1.0 / q == base * (1.0 / r)
  {
    var x, y := 1.0 / q, 1.0 / r;
    assert x * q == 1.0 && y * r == 1.0;
    assert (x - base * y) * q == x * q - y * r;
  }

  /** A sequence that grows by one factor, in both directions, grows by its powers. */
  lemma {:induction false} ScaledSequence(f: int -> real, base: real, offset: int, i: nat)
    requires GrowsBy(f, base)
    ensures f(offset) * Power(base, i) == f(offset + i)
  {
    if i > 0 {
      ScaledSequence(f, base, offset, i - 1);
      assert f(offset + (i - 1) + 1) == base * f(offset + (i - 1));
      NextFactor(f(offset), base, Power(base, i - 1), f(offset + (i - 1)), Power(base, i), f(offset + i));
    }
  }

  lemma NextFactor(x: real, base: real, p: real, t: real, p': real, t': real)
    requires x * p == t && p' == base * p && t' == base * t
    ensures x * p' == t'
  {
    assert x * (base * p) == base * (x * p);
  }

  ghost predicate GrowsBy(f: int -> real, base: real) {
    forall n: int :: f(n + 1) == base * f(n)
  }

  lemma IntPowers(base: real) returns (f: int -> real)
    requires base > 0.0
    ensures GrowsBy(f, base) && forall n: int :: f(n) == IntPower(base, n)
  {
    f := n => IntPower(base, n);
    forall n: int ensures f(n + 1) == base * f(n) {
      IntPowerStep(base, n);
    }
  }

  /** Where slot i of exponential options begins; it ends where slot i + 1 begins. */
  function SlotStart(options: BucketOptions, slot: nat): real
    requires options.Exponential? && slot > 0
  {
    options.scale * Power(options.growth, slot - 1)
  }

  lemma SlotStarts(f: int -> real, base: real, offset: int, numFiniteBuckets: int, i: nat)
    requires GrowsBy(f, base)
    ensures SlotStart(Exponential(base, f(offset), numFiniteBuckets), i + 1) == f(offset + i)
  {
    ScaledSequence(f, base, offset, i);
  }

  /** For every base and every offset, positive or negative: the bounds of the OTLP bucket
      offset + i are the bounds the exported options give to slot i + 1. */
  lemma ExportedBoundsAgree(base: real, offset: int, numFiniteBuckets: int, i: nat)
    requires base > 1.0
    ensures var options := Exponential(base, IntPower(base, offset), numFiniteBuckets);
      && SlotStart(options, i + 1) == IntPower(base, offset + i)
      && SlotStart(options, i + 2) == IntPower(base, offset + i + 1)
  {
    var f := IntPowers(base);
    SlotStarts(f, base, offset, numFiniteBuckets, i);
    SlotStarts(f, base, offset, numFiniteBuckets, i + 1);
  }

  // ---------- the exported point ----------

  /** What the exported distribution says of the buckets: the first slot counts everything at
      or below zero, the last one nothing; for every absolute index k of a positive bucket,
      slot k - offset + 1 holds its count and has the bounds growth^k and growth^(k + 1). */
  ghost predicate DistributionOf(dist: Distribution, e: ExponentialFields, growth: real)
    requires growth > 1.0
  {
    var n := |e.positive.counts|;
    && |dist.bucketCounts| == n + 2
    && dist.bucketCounts[0] == WrapI64(WrapU64(e.zeroCount + Total(e.negative.counts)))
    && dist.bucketCounts[n + 1] == 0
    && (n == 0 ==> dist.options == Explicit([0.0]))
    && (n > 0 ==> dist.options.Exponential? && dist.options.numFiniteBuckets == WrapI32(n))
    && forall k :: e.positive.offset <= k < e.positive.offset + n ==>
         SlotOf(dist, k - e.positive.offset + 1, WrapI64(At(e.positive, k)), IntPower(growth, k), IntPower(growth, k + 1))
  }

  predicate SlotOf(dist: Distribution, slot: nat, count: int64, lower: real, upper: real) {
    && 0 < slot < |dist.bucketCounts| && dist.bucketCounts[slot] == count && dist.options.Exponential?
    && SlotStart(dist.options, slot) == lower && SlotStart(dist.options, slot + 1) == upper
  }

  /** growth is 2^(2^-scale), which is not a rational number. */
  method ExponentialHistogramPoint(e: ExponentialFields, growth: real) returns (dist: Distribution)
    requires growth > 1.0
    ensures dist.count == WrapI64(e.count)
    ensures e.count > 0 ==> dist.mean * (e.count as real) == if e.sum.Some? then e.sum.value else 0.0
    ensures e.count == 0 ==> dist.mean == 0.0
    ensures dist.bucketCounts == ExportedCounts(e) && DistributionOf(dist, e, growth)
  {
    var counts := BucketCounts(e);
    var options := Explicit([0.0]);
    if |e.positive.counts| != 0 {
      options := Exponential(growth, IntPower(growth, e.positive.offset), WrapI32(counts.Length - 2));
    }
    dist := Distribution(WrapI64(e.count), Mean(e), counts[..], options);
    if e.count > 0 {
      MeanTimesCount(e);
    }
    forall k | e.positive.offset <= k < e.positive.offset + |e.positive.counts|
      ensures SlotOf(dist, k - e.positive.offset + 1, WrapI64(At(e.positive, k)),
                     IntPower(growth, k), IntPower(growth, k + 1))
    {
      ExportedBoundsAgree(growth, e.positive.offset, options.numFiniteBuckets, k - e.positive.offset);
    }
  }
}
