/** Splitting a long text payload over several log entries. Quotients are exact: floats
    are read as rational numbers. */
module LogSplits {
  import opened ByteStrings
  import opened DataPoints

  /** The program slices a string at byte positions. */
  type Text = Bytes

  datatype LogSplit = LogSplit(index: int32, totalSplits: int32)

  datatype LogEntry = LogEntry(text: Option<Text>, split: Option<LogSplit>)

  /** The least integer that is not below n / m. */
  function CeilDiv(n: int, m: int): int
    requires m != 0
  {
    if m > 0 then -(-n / m) else -(n / -m)
  }

  // ---------- arithmetic ----------

  lemma DivMonotone(a: int, b: int, s: int)
    requires a <= b && s > 0
    ensures a / s <= b / s
  {
    var d := a / s - b / s;
    assert s * d == (a - a % s) - (b - b % s);
    assert d >= 1 ==> s * d >= s;
  }

  lemma DivPlus(a: int, s: int, k: int)
    requires s > 0
    ensures (a + s * k) / s == a / s + k
  {
    var q, r := a / s, a % s;
    assert a + s * k == s * (q + k) + r;
    QuotientIsUnique(a + s * k, s, q + k, r);
  }

  lemma QuotientIsUnique(n: int, s: int, q: int, r: int)
    requires s > 0 && 0 <= r < s && n == s * q + r
    ensures n / s == q
  {
    var d := n / s - q;
    assert s * d == r - n % s;
    assert d <= -1 ==> s * d <= -s;
    assert d >= 1 ==> s * d >= s;
  }

  /** Where chunk i of splits begins, and chunk i - 1 ends. */
  function Cut(length: nat, splits: int, i: nat): int
    requires splits > 0
  {
    (i * length) / splits
  }

  lemma ChunkBetween(length: nat, splits: int, lo: int, hi: int, i: nat)
    requires splits > 0 && splits * lo <= length <= splits * hi
    ensures lo <= Cut(length, splits, i + 1) - Cut(length, splits, i) <= hi
  {
    var a := i * length;
    assert (i + 1) * length == a + length;
    DivPlus(a, splits, lo);
    DivMonotone(a + splits * lo, a + length, splits);
    DivPlus(a, splits, hi);
    DivMonotone(a + length, a + splits * hi, splits);
  }

  /** Every chunk has at least one byte and at most room, and they are all even up to one. */
  lemma ChunkSize(length: nat, splits: int, room: int, i: nat)
    requires 0 < splits <= length <= splits * room
    ensures 1 <= Cut(length, splits, i + 1) - Cut(length, splits, i) <= room
    ensures length / splits <= Cut(length, splits, i + 1) - Cut(length, splits, i) <= length / splits + 1
  {
    ChunkBetween(length, splits, 1, room, i);
    assert length == splits * (length / splits) + length % splits;
    ChunkBetween(length, splits, length / splits, length / splits + 1, i);
  }

  lemma CutEnds(length: nat, splits: int)
    requires splits > 0
    ensures Cut(length, splits, 0) == 0 && Cut(length, splits, splits) == length
  {
    QuotientIsUnique(splits * length, splits, length, 0);
  }

  lemma CeilDivBounds(n: int, m: int)
    requires m > 0
    ensures (CeilDiv(n, m) - 1) * m < n <= CeilDiv(n, m) * m
  {
    var q, r := -n / m, -n % m;
    assert -n == m * q + r;
    assert (-q) * m == n + r && (-q - 1) * m == n + r - m;
  }

  lemma ProductMonotone(a: int, b: int, m: int)
    requires a <= b && m > 0
    ensures a * m <= b * m
  {
  }

  /** splits is the least number of chunks of at most m bytes. */
  lemma CeilDivIsLeast(length: nat, m: int)
    requires length > 0 && m > 0
    ensures var splits := CeilDiv(length, m);
      && (splits - 1) * m < length <= splits * m
      && 0 < splits <= length
      && (splits <= 1 <==> length <= m)
  {
    CeilDivBounds(length, m);
    var splits := CeilDiv(length, m);
    if splits > length {
      ProductMonotone(length, splits - 1, m);
      ProductMonotone(1, m, length);
      assert false;
    }
    if splits <= 0 {
      ProductMonotone(splits, 0, m);
      assert false;
    }
    if splits > 1 {
      ProductMonotone(1, splits - 1, m);
    }
  }

  lemma NoRoom(length: nat, m: int)
    requires m < 0
    ensures CeilDiv(length, m) <= 0
  {
    DivMonotone(0, length, -m);
  }

  // ---------- the loop ----------

  /** The text of the first n entries. */
  function Texts(entries: seq<LogEntry>): Text {
    if entries == [] then []
    else Texts(entries[..|entries| - 1]) + entries[|entries| - 1].text.GetOr([])
  }

  /** The entries are numbered chunks that make up the body, none empty, none above room,
      and all of the same length up to one byte. */
  ghost predicate Splits(entries: seq<LogEntry>, body: Text, room: int) {
    && Texts(entries) == body
    && forall i: nat :: i < |entries| ==> IsSplit(entries[i], body, room, |entries|, i)
  }

  /** Entry i of n. */
  predicate IsSplit(entry: LogEntry, body: Text, room: int, n: nat, i: nat)
    requires n > 0
  {
    && entry.split == Some(LogSplit(WrapI32(i), WrapI32(n)))
    && entry.text.Some? && 1 <= |entry.text.value| <= room
    && |body| / n <= |entry.text.value| <= |body| / n + 1
    && IsChunk(entry.text.value, body, n, i)
  }

  lemma ChunkIsSplit(body: Text, room: int, n: nat, i: nat)
    requires 0 < n <= |body| <= n * room && i < n
    ensures 0 <= Cut(|body|, n, i) <= Cut(|body|, n, i + 1) <= |body|
    ensures IsSplit(LogEntry(Some(body[Cut(|body|, n, i)..Cut(|body|, n, i + 1)]), Some(LogSplit(WrapI32(i), WrapI32(n)))),
                    body, room, n, i)
  {
    ChunkSize(|body|, n, room, i);
    NotBeyond(|body|, n, i);
    NotBeyond(|body|, n, i + 1);
  }

  lemma NextChunk(body: Text, from: nat, to: nat)
    requires from <= to <= |body|
    ensures body[..from] + body[from..to] == body[..to]
  {
  }

  /** The chunk from floor(i * |body| / n) to floor((i + 1) * |body| / n). */
  predicate IsChunk(text: Text, body: Text, n: nat, i: nat)
    requires n > 0
  {
    var from, to := i * |body| / n, (i + 1) * |body| / n;
    0 <= from <= to <= |body| && text == body[from..to]
  }

  lemma TextsSnoc(entries: seq<LogEntry>, e: LogEntry)
    ensures Texts(entries + [e]) == Texts(entries) + e.text.GetOr([])
  {
    assert (entries + [e])[..|entries|] == entries;
  }

  /** Moves the end of a chunk back until the chunk fits an entry. */
  method Shrink(body: Text, startIndex: nat, endIndex: nat, maxEntrySize: nat) returns (end: nat)
    requires startIndex <= endIndex <= |body|
    ensures end == if endIndex - startIndex <= maxEntrySize then endIndex else startIndex + maxEntrySize
  {
    end := endIndex;
    var currentSplit := body[startIndex..end];
    while |currentSplit| > maxEntrySize
      invariant startIndex <= end <= endIndex && currentSplit == body[startIndex..end]
      invariant end < endIndex ==> end - startIndex >= maxEntrySize
    {
      end := end - 1;
      currentSplit := body[startIndex..end];
    }
  }

  /** infinity is what the platform makes of an infinite quotient: the least integer on amd64. */
  method SplitText(body: Text, maxEntrySize: int, overheadBytes: nat, infinity: int) returns (entries: seq<LogEntry>)
    requires infinity <= 1
    ensures var room := maxEntrySize - overheadBytes;
      if body == [] then entries == [LogEntry(None, None)]
      else if 0 < room < |body| then
        Splits(entries, body, room) && (|entries| - 1) * room < |body|
      else entries == [LogEntry(Some(body), None)]
  {
    if |body| == 0 {
      return [LogEntry(None, None)];
    }
    ghost var room := maxEntrySize - overheadBytes;
    var splits := if maxEntrySize == overheadBytes then infinity else CeilDiv(|body|, maxEntrySize - overheadBytes);
    if room > 0 {
      CeilDivIsLeast(|body|, room);
    } else if room < 0 {
      NoRoom(|body|, room);
    }
    if splits <= 1 {
      return [LogEntry(Some(body), None)];
    }
    entries := [];
    CutEnds(|body|, splits);
    var startIndex := 0;
    var endIndex := Cut(|body|, splits, 1);
    for i := 0 to splits
      invariant |entries| == i
      invariant startIndex == Cut(|body|, splits, i) && endIndex == Cut(|body|, splits, i + 1)
      invariant 0 <= startIndex <= |body| && Texts(entries) == body[..startIndex]
      invariant forall k: nat :: k < i ==> IsSplit(entries[k], body, room, splits, k)
    {
      ChunkIsSplit(body, room, splits, i);
      var currentSplit := body[startIndex..endIndex];
      // No chunk is above the room that the overhead leaves, so nothing is cut off.
      endIndex := Shrink(body, startIndex, endIndex, maxEntrySize);
      currentSplit := body[startIndex..endIndex];
      var newEntry := LogEntry(Some(currentSplit), Some(LogSplit(WrapI32(i), WrapI32(splits))));
      TextsSnoc(entries, newEntry);
      NextChunk(body, startIndex, endIndex);
      entries := entries + [newEntry];
      startIndex := endIndex;
      endIndex := Cut(|body|, splits, i + 2);
    }
    assert body[..|body|] == body;
  }

  lemma NotBeyond(length: nat, splits: int, i: nat)
    requires splits > 0 && i <= splits
    ensures 0 <= Cut(length, splits, i) <= length
  {
    CutEnds(length, splits);
    assert 0 <= i * length <= splits * length;
    DivMonotone(0, i * length, splits);
    DivMonotone(i * length, splits * length, splits);
  }
}
