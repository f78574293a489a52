/** The bytes that identify a metric series: what is fed to the hash. */
module Identifiers {
  import opened ByteStrings
  import Utf8

  type Labels = map<Bytes, Bytes>

  /** Between the parts of an identifier, and after each key and value. */
  const ITEM_SEP: Byte := 0xFE
  const KV_SEP: Byte := 0xFF

  // ---------- byte order ----------

  predicate Less(a: Bytes, b: Bytes) {
    b != [] && (a == [] || a[0] < b[0] || (a[0] == b[0] && Less(a[1..], b[1..])))
  }

  lemma {:induction false} LessIsTotal(a: Bytes, b: Bytes)
    ensures a == b || Less(a, b) || Less(b, a)
  {
    if a != [] && b != [] && a[0] == b[0] {
      LessIsTotal(a[1..], b[1..]);
      assert a == [a[0]] + a[1..] && b == [b[0]] + b[1..];
    }
  }

  lemma {:induction false} LessIsTransitive(a: Bytes, b: Bytes, c: Bytes)
    requires Less(a, b) && Less(b, c)
    ensures Less(a, c)
  {
    if a != [] && a[0] == b[0] == c[0] {
      LessIsTransitive(a[1..], b[1..], c[1..]);
    }
  }

  lemma {:induction false} LessIsIrreflexive(a: Bytes)
    ensures !Less(a, a)
  {
    if a != [] {
      LessIsIrreflexive(a[1..]);
    }
  }

  /** The order of sort.Strings: a proper prefix comes first, otherwise the first byte that
      differs decides. */
  ghost predicate FirstDifference(a: Bytes, b: Bytes, n: nat) {
    && n <= |a| && n < |b| && a[..n] == b[..n]
    && (n == |a| || a[n] < b[n])
  }

  lemma PrefixesDiffer(a: Bytes, b: Bytes, n: nat)
    requires 0 < n <= |a| && n <= |b| && a[0] != b[0]
    ensures a[..n] != b[..n]
  {
    assert a[..n][0] == a[0] && b[..n][0] == b[0];
  }

  lemma {:induction false} LessIsFirstDifference(a: Bytes, b: Bytes)
    ensures Less(a, b) <==> exists n: nat :: FirstDifference(a, b, n)
  {
    if a == [] || b == [] || a[0] != b[0] {
      if b != [] && (a == [] || a[0] < b[0]) {
        assert FirstDifference(a, b, 0);
      }
      if n: nat :| FirstDifference(a, b, n) && n > 0 {
        PrefixesDiffer(a, b, n);
        assert false;
      }
    } else {
      LessIsFirstDifference(a[1..], b[1..]);
      if n: nat :| FirstDifference(a[1..], b[1..], n) {
        assert a[..n + 1] == [a[0]] + a[1..][..n] && b[..n + 1] == [b[0]] + b[1..][..n];
        assert FirstDifference(a, b, n + 1);
      }
      if n: nat :| FirstDifference(a, b, n) {
        assert n > 0 && a[1..][..n - 1] == a[..n][1..] && b[1..][..n - 1] == b[..n][1..];
        assert FirstDifference(a[1..], b[1..], n - 1);
      }
    }
  }

  ghost predicate Sorted(keys: seq<Bytes>) {
    forall i, j :: 0 <= i < j < |keys| ==> Less(keys[i], keys[j])
  }

  ghost function Elements(keys: seq<Bytes>): set<Bytes> {
    set key | key in keys
  }

  lemma NoElements(keys: seq<Bytes>)
    ensures Elements(keys) == {} <==> keys == []
  {
    if keys != [] {
      assert keys[0] in Elements(keys);
    }
  }

  lemma ElementsConcat(a: seq<Bytes>, b: seq<Bytes>)
    ensures Elements(a + b) == Elements(a) + Elements(b)
  {
  }

  lemma ElementsOne(key: Bytes)
    ensures Elements([key]) == {key}
  {
  }

  /** A set of keys has one sorted order. */
  lemma {:induction false} SortedIsUnique(a: seq<Bytes>, b: seq<Bytes>)
    requires Sorted(a) && Sorted(b) && Elements(a) == Elements(b)
    ensures a == b
  {
    NoElements(a);
    NoElements(b);
    if a != [] && b != [] {
      FirstIsLeast(a, b);
      FirstIsLeast(b, a);
      if a[0] != b[0] {
        LessIsTransitive(a[0], b[0], a[0]);
        LessIsIrreflexive(a[0]);
      }
      TailElements(a);
      TailElements(b);
      SortedIsUnique(a[1..], b[1..]);
      assert a == [a[0]] + a[1..] && b == [b[0]] + b[1..];
    }
  }

  lemma FirstIsLeast(a: seq<Bytes>, b: seq<Bytes>)
    requires Sorted(a) && a != [] && b != [] && Elements(a) == Elements(b)
    ensures a[0] == b[0] || Less(a[0], b[0])
  {
    assert b[0] in Elements(a);
  }

  lemma TailElements(a: seq<Bytes>)
    requires Sorted(a) && a != []
    ensures Elements(a[1..]) == Elements(a) - {a[0]}
  {
    LessIsIrreflexive(a[0]);
    assert a == [a[0]] + a[1..];
  }

  // ---------- sorting ----------

  lemma InsertedElements(keys: seq<Bytes>, key: Bytes, i: nat)
    requires i <= |keys|
    ensures Elements(keys[..i] + [key] + keys[i..]) == Elements(keys) + {key}
  {
    ElementsConcat(keys[..i] + [key], keys[i..]);
    ElementsConcat(keys[..i], [key]);
    ElementsOne(key);
    ElementsConcat(keys[..i], keys[i..]);
    assert keys == keys[..i] + keys[i..];
  }

  /** Insertion into a sorted list of other keys. */
  method Insert(keys: seq<Bytes>, key: Bytes) returns (r: seq<Bytes>)
    requires Sorted(keys) && key !in keys
    ensures Sorted(r) && Elements(r) == Elements(keys) + {key}
  {
    var i := 0;
    while i < |keys| && Less(keys[i], key)
      invariant 0 <= i <= |keys|
      invariant forall k :: 0 <= k < i ==> Less(keys[k], key)
    {
      i := i + 1;
    }
    forall k | i <= k < |keys| ensures Less(key, keys[k]) {
      LessIsTotal(key, keys[i]);
      if i < k {
        LessIsTransitive(key, keys[i], keys[k]);
      }
    }
    r := keys[..i] + [key] + keys[i..];
    InsertedElements(keys, key, i);
  }

  /** sort.Strings, on the keys of a map: they come in any order, but only once. */
  method SortStrings(keys: seq<Bytes>) returns (sorted: seq<Bytes>)
    requires forall i, j :: 0 <= i < j < |keys| ==> keys[i] != keys[j]
    ensures Sorted(sorted) && Elements(sorted) == Elements(keys)
  {
    sorted := [];
    for i := 0 to |keys|
      invariant Sorted(sorted) && Elements(sorted) == Elements(keys[..i])
    {
      assert keys[i] !in Elements(keys[..i]);
      assert forall key :: key in sorted <==> key in Elements(sorted);
      sorted := Insert(sorted, keys[i]);
      assert keys[..i + 1] == keys[..i] + [keys[i]];
    }
    assert keys[..|keys|] == keys;
  }

  ghost predicate SortedOrderOf(sorted: seq<Bytes>, keys: set<Bytes>) {
    Sorted(sorted) && Elements(sorted) == keys
  }

  lemma {:induction false} SortedOrderExists(keys: set<Bytes>)
    ensures exists sorted :: SortedOrderOf(sorted, keys)
  {
    if keys == {} {
      assert SortedOrderOf([], keys);
    } else {
      var first := LeastKey(keys);
      SortedOrderExists(keys - {first});
      var rest :| SortedOrderOf(rest, keys - {first});
      var sorted := [first] + rest;
      forall j | 1 <= j < |sorted| ensures Less(sorted[0], sorted[j]) {
        assert rest[j - 1] in Elements(rest);
      }
      ElementsConcat([first], rest);
      ElementsOne(first);
      assert SortedOrderOf(sorted, keys);
    }
  }

  lemma {:induction false} LeastKey(keys: set<Bytes>) returns (least: Bytes)
    requires keys != {}
    ensures least in keys && forall key :: key in keys && key != least ==> Less(least, key)
  {
    var some :| some in keys;
    if keys == {some} {
      least := some;
    } else {
      var other := LeastKey(keys - {some});
      LessIsTotal(some, other);
      least := if Less(some, other) then some else other;
      forall key | key in keys && key != least ensures Less(least, key) {
        if Less(some, other) && key != other {
          LessIsTransitive(some, other, key);
        }
      }
    }
  }

  ghost function SortedKeys(labels: Labels): (keys: seq<Bytes>)
    ensures SortedOrderOf(keys, labels.Keys)
  {
    SortedOrderExists(labels.Keys);
    var keys :| SortedOrderOf(keys, labels.Keys);
    keys
  }

  // ---------- the stream ----------

  /** A part, its separator, and the rest. */
  function Part(part: Bytes, sep: Byte, rest: Bytes): Bytes {
    part + [sep] + rest
  }

  ghost function EntryStream(keys: seq<Bytes>, labels: Labels): Bytes
    requires forall i :: 0 <= i < |keys| ==> keys[i] in labels
  {
    if keys == [] then []
    else Part(keys[0], KV_SEP, Part(labels[keys[0]], KV_SEP, EntryStream(keys[1..], labels)))
  }

  lemma KeysAreLabels(labels: Labels)
    ensures forall i :: 0 <= i < |SortedKeys(labels)| ==> SortedKeys(labels)[i] in labels
  {
    forall i | 0 <= i < |SortedKeys(labels)| ensures SortedKeys(labels)[i] in labels {
      assert SortedKeys(labels)[i] in Elements(SortedKeys(labels));
    }
  }

  ghost function MapStream(labels: Labels): Bytes {
    KeysAreLabels(labels);
    EntryStream(SortedKeys(labels), labels)
  }

  /** What tells one series from another. */
  datatype SeriesId = SeriesId(
    resourceType: Bytes, metricName: Bytes, extraLabels: Labels, attributes: Labels, resourceLabels: Labels)

  ghost function Stream(id: SeriesId): Bytes {
    Part(id.resourceType, ITEM_SEP, Part(id.metricName, ITEM_SEP, LabelStream(id)))
  }

  ghost function LabelStream(id: SeriesId): Bytes {
    Part(MapStream(id.extraLabels), ITEM_SEP,
         Part(MapStream(id.attributes), ITEM_SEP, MapStream(id.resourceLabels)))
  }

  // ---------- writing it ----------

  /** The running hash: all that matters here is what has been written to it. */
  class Hash {
    var written: Bytes

    constructor ()
      ensures written == []
    {
      written := [];
    }

    method Write(bytes: Bytes)
      modifies this
      ensures written == old(written) + bytes
    {
      written := written + bytes;
    }
  }

  /** The keys of a map in whatever order iteration yields them. */
  method CollectKeys(labels: Labels) returns (keys: seq<Bytes>)
    ensures Elements(keys) == labels.Keys
    ensures forall i, j :: 0 <= i < j < |keys| ==> keys[i] != keys[j]
  {
    keys := [];
    var todo := labels.Keys;
    while todo != {}
      invariant Elements(keys) == labels.Keys - todo && todo <= labels.Keys
      invariant forall i, j :: 0 <= i < j < |keys| ==> keys[i] != keys[j]
    {
      var key :| key in todo;
      assert key !in Elements(keys);
      ElementsConcat(keys, [key]);
      ElementsOne(key);
      keys := keys + [key];
      todo := todo - {key};
    }
  }

  method WritePart(h: Hash, part: Bytes, sep: Byte, ghost rest: Bytes)
    modifies h
    ensures h.written + rest == old(h.written) + Part(part, sep, rest)
  {
    h.Write(part);
    h.Write([sep]);
  }

  method HashOfMap(h: Hash, labels: Labels)
    modifies h
    ensures h.written == old(h.written) + MapStream(labels)
  {
    var keys := CollectKeys(labels);
    keys := SortStrings(keys);
    SortedIsUnique(keys, SortedKeys(labels));
    KeysAreLabels(labels);
    ghost var all := h.written + MapStream(labels);
    assert keys[0..] == keys;
    for i := 0 to |keys|
      invariant all == h.written + EntryStream(keys[i..], labels)
    {
      assert keys[i..][1..] == keys[i + 1..];
      ghost var rest := EntryStream(keys[i + 1..], labels);
      WritePart(h, keys[i], KV_SEP, Part(labels[keys[i]], KV_SEP, rest));
      WritePart(h, labels[keys[i]], KV_SEP, rest);
    }
  }

  /** Later attributes replace earlier ones with the same key. */
  function AttributeMap(attributes: seq<(Bytes, Bytes)>): Labels {
    if attributes == [] then map[]
    else
      var last := attributes[|attributes| - 1];
      AttributeMap(attributes[..|attributes| - 1])[last.0 := last.1]
  }

  method Identifier(resourceType: Bytes, metricName: Bytes, extraLabels: Labels,
                    attributes: seq<(Bytes, Bytes)>, resourceLabels: Labels) returns (h: Hash)
    ensures h.written
         == Stream(SeriesId(resourceType, metricName, extraLabels, AttributeMap(attributes), resourceLabels))
  {
    ghost var id := SeriesId(resourceType, metricName, extraLabels, AttributeMap(attributes), resourceLabels);
    h := new Hash();
    WritePart(h, resourceType, ITEM_SEP, Part(metricName, ITEM_SEP, LabelStream(id)));
    WritePart(h, metricName, ITEM_SEP, LabelStream(id));
    assert h.written + LabelStream(id) == Stream(id);
    var attrs := CollectAttributes(attributes);
    HashOfLabels(h, extraLabels, attrs, resourceLabels, id);
  }

  method CollectAttributes(attributes: seq<(Bytes, Bytes)>) returns (attrs: Labels)
    ensures attrs == AttributeMap(attributes)
  {
    attrs := map[];
    for i := 0 to |attributes|
      invariant attrs == AttributeMap(attributes[..i])
    {
      assert attributes[..i + 1][..i] == attributes[..i];
      attrs := attrs[attributes[i].0 := attributes[i].1];
    }
    assert attributes[..|attributes|] == attributes;
  }

  method HashOfLabels(h: Hash, extraLabels: Labels, attrs: Labels, resourceLabels: Labels, ghost id: SeriesId)
    requires id.extraLabels == extraLabels && id.attributes == attrs && id.resourceLabels == resourceLabels
    modifies h
    ensures h.written == old(h.written) + LabelStream(id)
  {
    HashOfMap(h, extraLabels);
    h.Write([ITEM_SEP]);
    HashOfMap(h, attrs);
    h.Write([ITEM_SEP]);
    HashOfMap(h, resourceLabels);
    PartsInOrder(old(h.written), MapStream(extraLabels), MapStream(attrs), MapStream(resourceLabels));
  }

  lemma PartsInOrder(before: Bytes, a: Bytes, b: Bytes, c: Bytes)
    ensures before + a + [ITEM_SEP] + b + [ITEM_SEP] + c == before + Part(a, ITEM_SEP, Part(b, ITEM_SEP, c))
  {
  }

  /** The pair at i is the last one with its key. */
  predicate IsLast(attributes: seq<(Bytes, Bytes)>, i: nat) {
    i < |attributes| && forall j :: i < j < |attributes| ==> attributes[j].0 != attributes[i].0
  }

  ghost predicate HasKey(attributes: seq<(Bytes, Bytes)>, key: Bytes) {
    exists i :: 0 <= i < |attributes| && attributes[i].0 == key
  }

  lemma HasKeySnoc(attributes: seq<(Bytes, Bytes)>, key: Bytes)
    requires attributes != []
    ensures var n := |attributes| - 1;
      HasKey(attributes, key) <==> HasKey(attributes[..n], key) || attributes[n].0 == key
  {
    var n := |attributes| - 1;
    assert forall i :: 0 <= i < n ==> attributes[..n][i] == attributes[i];
  }

  /** The map has the keys of the attributes. */
  lemma {:induction false} AttributeKeys(attributes: seq<(Bytes, Bytes)>, key: Bytes)
    ensures key in AttributeMap(attributes) <==> HasKey(attributes, key)
  {
    if attributes != [] {
      HasKeySnoc(attributes, key);
      AttributeKeys(attributes[..|attributes| - 1], key);
    }
  }

  /** Of several attributes with one key the last one counts. */
  lemma {:induction false} LastAttributeWins(attributes: seq<(Bytes, Bytes)>, i: nat)
    requires IsLast(attributes, i)
    ensures attributes[i].0 in AttributeMap(attributes)
    ensures AttributeMap(attributes)[attributes[i].0] == attributes[i].1
  {
    var n := |attributes| - 1;
    if i < n {
      assert attributes[n].0 != attributes[i].0 && IsLast(attributes[..n], i);
      LastAttributeWins(attributes[..n], i);
    }
  }

  // ---------- reading it back ----------

  /** No key and no value of the labels contains the byte. */
  ghost predicate FreeOf(labels: Labels, sep: Byte) {
    forall key :: key in labels ==> sep !in key && sep !in labels[key]
  }

  /** What the strings of an identifier must not contain. */
  datatype Condition =
    | TypeWithoutItemSep | NameWithoutItemSep | ExtraLabelsWithoutItemSep | AttributesWithoutItemSep
    | ExtraLabelsWithoutKvSep | AttributesWithoutKvSep | ResourceLabelsWithoutKvSep

  ghost predicate Meets(id: SeriesId, c: Condition) {
    match c
    case TypeWithoutItemSep => ITEM_SEP !in id.resourceType
    case NameWithoutItemSep => ITEM_SEP !in id.metricName
    case ExtraLabelsWithoutItemSep => FreeOf(id.extraLabels, ITEM_SEP)
    case AttributesWithoutItemSep => FreeOf(id.attributes, ITEM_SEP)
    case ExtraLabelsWithoutKvSep => FreeOf(id.extraLabels, KV_SEP)
    case AttributesWithoutKvSep => FreeOf(id.attributes, KV_SEP)
    case ResourceLabelsWithoutKvSep => FreeOf(id.resourceLabels, KV_SEP)
  }

  ghost predicate CleanId(id: SeriesId) {
    forall c: Condition :: Meets(id, c)
  }

  lemma CleanParts(id: SeriesId)
    requires CleanId(id)
    ensures ITEM_SEP !in id.resourceType && ITEM_SEP !in id.metricName
    ensures FreeOf(id.extraLabels, ITEM_SEP) && FreeOf(id.attributes, ITEM_SEP)
    ensures FreeOf(id.extraLabels, KV_SEP) && FreeOf(id.attributes, KV_SEP) && FreeOf(id.resourceLabels, KV_SEP)
  {
    assert Meets(id, TypeWithoutItemSep) && Meets(id, NameWithoutItemSep);
    assert Meets(id, ExtraLabelsWithoutItemSep) && Meets(id, AttributesWithoutItemSep);
    assert Meets(id, ExtraLabelsWithoutKvSep) && Meets(id, AttributesWithoutKvSep);
    assert Meets(id, ResourceLabelsWithoutKvSep);
  }

  /** Reads the part before the first separator. */
  function UpTo(s: Bytes, sep: Byte): Bytes {
    if s == [] || s[0] == sep then [] else [s[0]] + UpTo(s[1..], sep)
  }

  lemma {:induction false} UpToReadsPart(part: Bytes, sep: Byte, rest: Bytes)
    requires sep !in part
    ensures UpTo(Part(part, sep, rest), sep) == part
  {
    if part != [] {
      assert Part(part, sep, rest)[1..] == Part(part[1..], sep, rest);
      UpToReadsPart(part[1..], sep, rest);
      assert part == [part[0]] + part[1..];
    }
  }

  lemma PartIsInjective(a: Bytes, x: Bytes, b: Bytes, y: Bytes, sep: Byte)
    requires sep !in a && sep !in b && Part(a, sep, x) == Part(b, sep, y)
    ensures a == b && x == y
  {
    UpToReadsPart(a, sep, x);
    UpToReadsPart(b, sep, y);
    assert x == Part(a, sep, x)[|a| + 1..] && y == Part(b, sep, y)[|b| + 1..];
  }

  lemma {:induction false} NoItemSeparator(keys: seq<Bytes>, labels: Labels)
    requires FreeOf(labels, ITEM_SEP) && forall i :: 0 <= i < |keys| ==> keys[i] in labels
    ensures ITEM_SEP !in EntryStream(keys, labels)
  {
    if keys != [] {
      assert ITEM_SEP !in keys[0] && ITEM_SEP !in labels[keys[0]];
      NoItemSeparator(keys[1..], labels);
    }
  }

  lemma {:induction false} EntriesAreDetermined(keys: seq<Bytes>, labels: Labels, keys': seq<Bytes>, labels': Labels)
    requires FreeOf(labels, KV_SEP) && forall i :: 0 <= i < |keys| ==> keys[i] in labels
    requires FreeOf(labels', KV_SEP) && forall i :: 0 <= i < |keys'| ==> keys'[i] in labels'
    requires EntryStream(keys, labels) == EntryStream(keys', labels')
    ensures keys == keys' && forall i :: 0 <= i < |keys| ==> labels[keys[i]] == labels'[keys[i]]
  {
    if keys != [] && keys' != [] {
      var k, k' := keys[0], keys'[0];
      var v, v' := labels[k], labels'[k'];
      var rest, rest' := EntryStream(keys[1..], labels), EntryStream(keys'[1..], labels');
      assert KV_SEP !in k && KV_SEP !in k' && KV_SEP !in v && KV_SEP !in v';
      PartIsInjective(k, Part(v, KV_SEP, rest), k', Part(v', KV_SEP, rest'), KV_SEP);
      PartIsInjective(v, rest, v', rest', KV_SEP);
      EntriesAreDetermined(keys[1..], labels, keys'[1..], labels');
      assert keys == [k] + keys[1..] && keys' == [k'] + keys'[1..];
    }
  }

  lemma LabelsAreDetermined(labels: Labels, labels': Labels)
    requires FreeOf(labels, KV_SEP) && FreeOf(labels', KV_SEP) && MapStream(labels) == MapStream(labels')
    ensures labels == labels'
  {
    var keys, keys' := SortedKeys(labels), SortedKeys(labels');
    KeysAreLabels(labels);
    KeysAreLabels(labels');
    EntriesAreDetermined(keys, labels, keys', labels');
    forall key | key in labels ensures labels[key] == labels'[key] {
      assert key in Elements(keys);
    }
  }

  lemma NoItemSeparatorInMap(labels: Labels)
    requires FreeOf(labels, ITEM_SEP)
    ensures ITEM_SEP !in MapStream(labels)
  {
    KeysAreLabels(labels);
    NoItemSeparator(SortedKeys(labels), labels);
  }

  /** Two series that meet the conditions feed the hash the same bytes only if they are the
      same series. */
  lemma StreamIsInjective(a: SeriesId, b: SeriesId)
    requires CleanId(a) && CleanId(b)
    ensures Stream(a) == Stream(b) <==> a == b
  {
    if Stream(a) == Stream(b) {
      CleanParts(a);
      CleanParts(b);
      PartIsInjective(a.resourceType, Part(a.metricName, ITEM_SEP, LabelStream(a)),
                      b.resourceType, Part(b.metricName, ITEM_SEP, LabelStream(b)), ITEM_SEP);
      PartIsInjective(a.metricName, LabelStream(a), b.metricName, LabelStream(b), ITEM_SEP);
      LabelStreamIsInjective(a, b);
    }
  }

  lemma LabelStreamIsInjective(a: SeriesId, b: SeriesId)
    requires CleanId(a) && CleanId(b) && LabelStream(a) == LabelStream(b)
    ensures a.extraLabels == b.extraLabels && a.attributes == b.attributes && a.resourceLabels == b.resourceLabels
  {
    CleanParts(a);
    CleanParts(b);
    NoItemSeparatorInMap(a.extraLabels);
    NoItemSeparatorInMap(b.extraLabels);
    NoItemSeparatorInMap(a.attributes);
    NoItemSeparatorInMap(b.attributes);
    PartIsInjective(MapStream(a.extraLabels), Part(MapStream(a.attributes), ITEM_SEP, MapStream(a.resourceLabels)),
                    MapStream(b.extraLabels), Part(MapStream(b.attributes), ITEM_SEP, MapStream(b.resourceLabels)),
                    ITEM_SEP);
    PartIsInjective(MapStream(a.attributes), MapStream(a.resourceLabels),
                    MapStream(b.attributes), MapStream(b.resourceLabels), ITEM_SEP);
    LabelsAreDetermined(a.extraLabels, b.extraLabels);
    LabelsAreDetermined(a.attributes, b.attributes);
    LabelsAreDetermined(a.resourceLabels, b.resourceLabels);
  }

  /** Valid UTF-8 text is free of the separators. */
  lemma {:induction false} ValidUtf8IsClean(s: Bytes)
    requires Utf8.Valid(s)
    ensures ITEM_SEP !in s && KV_SEP !in s
  {
    if s != [] {
      var n := Utf8.CharLength(s);
      ValidUtf8IsClean(s[n..]);
      forall i | 0 <= i < n ensures s[i] != ITEM_SEP && s[i] != KV_SEP {
        assert s[i] == s[..n][i];
      }
      assert s == s[..n] + s[n..];
    }
  }

  // ---------- from the arguments of the call ----------

  ghost predicate DistinctKeys(attributes: seq<(Bytes, Bytes)>) {
    forall i, j :: 0 <= i < j < |attributes| ==> attributes[i].0 != attributes[j].0
  }

  ghost function Pairs(attributes: seq<(Bytes, Bytes)>): set<(Bytes, Bytes)> {
    set pair | pair in attributes
  }

  lemma PairsAreEntries(attributes: seq<(Bytes, Bytes)>, key: Bytes, value: Bytes)
    requires DistinctKeys(attributes)
    ensures (key, value) in Pairs(attributes)
       <==> key in AttributeMap(attributes) && AttributeMap(attributes)[key] == value
  {
    AttributeKeys(attributes, key);
    if key in AttributeMap(attributes) {
      var i: nat :| i < |attributes| && attributes[i].0 == key;
      assert IsLast(attributes, i) && attributes[i] == (key, attributes[i].1);
      LastAttributeWins(attributes, i);
    }
    if (key, value) in Pairs(attributes) {
      var i: nat :| i < |attributes| && attributes[i] == (key, value);
      assert IsLast(attributes, i);
      LastAttributeWins(attributes, i);
    }
  }

  /** Two lists of attributes make the same map exactly when they have the same pairs. */
  lemma SameMapIff(a: seq<(Bytes, Bytes)>, b: seq<(Bytes, Bytes)>)
    requires DistinctKeys(a) && DistinctKeys(b)
    ensures AttributeMap(a) == AttributeMap(b) <==> Pairs(a) == Pairs(b)
  {
    forall key, value
      ensures (key, value) in Pairs(a) <==> key in AttributeMap(a) && AttributeMap(a)[key] == value
      ensures (key, value) in Pairs(b) <==> key in AttributeMap(b) && AttributeMap(b)[key] == value
    {
      PairsAreEntries(a, key, value);
      PairsAreEntries(b, key, value);
    }
    if Pairs(a) == Pairs(b) {
      SamePairsSameKeys(a, b);
      SamePairsSameKeys(b, a);
    } else if AttributeMap(a) == AttributeMap(b) {
      forall pair ensures pair in Pairs(a) <==> pair in Pairs(b) {
        PairsAreEntries(a, pair.0, pair.1);
        PairsAreEntries(b, pair.0, pair.1);
      }
      assert false;
    }
  }

  lemma SamePairsSameKeys(a: seq<(Bytes, Bytes)>, b: seq<(Bytes, Bytes)>)
    requires DistinctKeys(a) && DistinctKeys(b) && Pairs(a) == Pairs(b)
    ensures forall key :: key in AttributeMap(a) ==>
      key in AttributeMap(b) && AttributeMap(b)[key] == AttributeMap(a)[key]
  {
    forall key | key in AttributeMap(a)
      ensures key in AttributeMap(b) && AttributeMap(b)[key] == AttributeMap(a)[key]
    {
      PairsAreEntries(a, key, AttributeMap(a)[key]);
      PairsAreEntries(b, key, AttributeMap(a)[key]);
    }
  }

  /** The arguments of Identifier. */
  datatype Arguments = Arguments(resourceType: Bytes, metricName: Bytes, extraLabels: Labels,
                                 attributes: seq<(Bytes, Bytes)>, resourceLabels: Labels)

  ghost predicate CleanArguments(x: Arguments) {
    && ITEM_SEP !in x.resourceType && ITEM_SEP !in x.metricName && DistinctKeys(x.attributes)
    && FreeOf(x.extraLabels, ITEM_SEP) && FreeOf(x.extraLabels, KV_SEP) && FreeOf(x.resourceLabels, KV_SEP)
    && forall i :: 0 <= i < |x.attributes| ==> CleanPair(x.attributes[i])
  }

  predicate CleanPair(pair: (Bytes, Bytes)) {
    ITEM_SEP !in pair.0 && ITEM_SEP !in pair.1 && KV_SEP !in pair.0 && KV_SEP !in pair.1
  }

  /** The same series: the order of its attributes does not matter. */
  ghost predicate SameSeries(x: Arguments, y: Arguments) {
    && x.resourceType == y.resourceType && x.metricName == y.metricName
    && x.extraLabels == y.extraLabels && x.resourceLabels == y.resourceLabels
    && Pairs(x.attributes) == Pairs(y.attributes)
  }

  ghost function IdOf(x: Arguments): SeriesId {
    SeriesId(x.resourceType, x.metricName, x.extraLabels, AttributeMap(x.attributes), x.resourceLabels)
  }

  lemma CleanArgumentsAreClean(x: Arguments)
    requires CleanArguments(x)
    ensures CleanId(IdOf(x))
  {
    var labels := AttributeMap(x.attributes);
    forall key | key in labels ensures CleanPair((key, labels[key])) {
      PairsAreEntries(x.attributes, key, labels[key]);
      var i :| 0 <= i < |x.attributes| && x.attributes[i] == (key, labels[key]);
      assert CleanPair(x.attributes[i]);
    }
    assert FreeOf(labels, ITEM_SEP) && FreeOf(labels, KV_SEP);
  }

  /** End to end: two calls with clean arguments write the same bytes exactly for the same
      series. */
  method CompareIdentifiers(x: Arguments, y: Arguments) returns (a: Hash, b: Hash)
    requires CleanArguments(x) && CleanArguments(y)
    ensures a.written == b.written <==> SameSeries(x, y)
  {
    a := Identifier(x.resourceType, x.metricName, x.extraLabels, x.attributes, x.resourceLabels);
    b := Identifier(y.resourceType, y.metricName, y.extraLabels, y.attributes, y.resourceLabels);
    CleanArgumentsAreClean(x);
    CleanArgumentsAreClean(y);
    StreamIsInjective(IdOf(x), IdOf(y));
    SameMapIff(x.attributes, y.attributes);
  }

  // ---------- collisions ----------

  lemma StreamOfSorted(labels: Labels, keys: seq<Bytes>)
    requires Sorted(keys) && Elements(keys) == labels.Keys
    ensures forall i :: 0 <= i < |keys| ==> keys[i] in labels
    ensures MapStream(labels) == EntryStream(keys, labels)
  {
    SortedIsUnique(keys, SortedKeys(labels));
    KeysAreLabels(labels);
  }

  lemma StreamOfNone()
    ensures MapStream(map[]) == []
  {
    StreamOfSorted(map[], []);
  }

  lemma StreamOfOne(key: Bytes, value: Bytes)
    ensures MapStream(map[key := value]) == key + [0xFF] + value + [0xFF]
  {
    var labels: Labels := map[key := value];
    ElementsOne(key);
    StreamOfSorted(labels, [key]);
    assert [key][1..] == [];
  }

  /** The empty key comes first. */
  lemma StreamOfTwo(value: Bytes, key: Bytes, value': Bytes)
    requires key != []
    ensures MapStream(map[[] := value, key := value'])
         == [0xFF] + value + [0xFF] + (key + [0xFF] + value' + [0xFF])
  {
    var labels: Labels := map[[] := value, key := value'];
    var keys := [[], key];
    ElementsConcat([[]], [key]);
    ElementsOne([]);
    ElementsOne(key);
    assert keys == [[]] + [key];
    StreamOfSorted(labels, keys);
    assert keys[1..] == [key] && [key][1..] == [];
    assert labels[[]] == value && labels[key] == value';
    assert EntryStream([key], labels) == key + [KV_SEP] + value' + [KV_SEP];
    assert EntryStream(keys, labels) == [] + [KV_SEP] + (value + [KV_SEP] + EntryStream([key], labels));
  }

  const PLAIN: Labels := map[[1] := [2]]

  /** A separator moves a byte from one part of the identifier into another. */
  function Shifted(c: Condition): (SeriesId, SeriesId) {
    match c
    case TypeWithoutItemSep =>
      (SeriesId([ITEM_SEP], [], map[], map[], PLAIN), SeriesId([], [], map[], map[], map[[ITEM_SEP, 1] := [2]]))
    case NameWithoutItemSep =>
      (SeriesId([], [ITEM_SEP], map[], map[], PLAIN), SeriesId([], [], map[], map[], map[[ITEM_SEP, 1] := [2]]))
    case ExtraLabelsWithoutItemSep =>
      (SeriesId([], [], map[[ITEM_SEP] := []], map[], PLAIN),
       SeriesId([], [], map[], map[[] := []], map[[ITEM_SEP, 1] := [2]]))
    case AttributesWithoutItemSep =>
      (SeriesId([], [], map[], map[[ITEM_SEP] := []], PLAIN),
       SeriesId([], [], map[], map[], map[[] := [], [ITEM_SEP, 1] := [2]]))
    case ExtraLabelsWithoutKvSep =>
      (SeriesId([], [], map[[] := [KV_SEP, 1, KV_SEP]], map[], map[]),
       SeriesId([], [], map[[] := [], [1] := []], map[], map[]))
    case AttributesWithoutKvSep =>
      (SeriesId([], [], map[], map[[] := [KV_SEP, 1, KV_SEP]], map[]),
       SeriesId([], [], map[], map[[] := [], [1] := []], map[]))
    case ResourceLabelsWithoutKvSep =>
      (SeriesId([], [], map[], map[], map[[] := [KV_SEP, 1, KV_SEP]]),
       SeriesId([], [], map[], map[], map[[] := [], [1] := []]))
  }

  lemma FreeOfOne(key: Bytes, value: Bytes, sep: Byte)
    ensures FreeOf(map[], sep)
    ensures FreeOf(map[key := value], sep) <==> sep !in key && sep !in value
  {
    var labels: Labels := map[key := value];
    assert key in labels && labels[key] == value;
  }

  lemma FreeOfTwo(value: Bytes, key: Bytes, value': Bytes, sep: Byte)
    requires key != []
    ensures FreeOf(map[[] := value, key := value'], sep) <==> sep !in key && sep !in value && sep !in value'
  {
    var labels: Labels := map[[] := value, key := value'];
    assert [] in labels && labels[[]] == value && key in labels && labels[key] == value';
  }

  lemma StreamOfParts(id: SeriesId, extra: Bytes, attributes: Bytes, resource: Bytes)
    requires MapStream(id.extraLabels) == extra && MapStream(id.attributes) == attributes
    requires MapStream(id.resourceLabels) == resource
    ensures Stream(id) == id.resourceType + [0xFE] + id.metricName + [0xFE]
                          + extra + [0xFE] + attributes + [0xFE] + resource
  {
  }

  lemma TypeCollides()
    ensures var (a, b) := Shifted(TypeWithoutItemSep); Stream(a) == Stream(b)
  {
    var (a, b) := Shifted(TypeWithoutItemSep);
    StreamOfNone();
    StreamOfOne([1], [2]);
    StreamOfOne([ITEM_SEP, 1], [2]);
    StreamOfParts(a, [], [], [1, KV_SEP, 2, KV_SEP]);
    StreamOfParts(b, [], [], [ITEM_SEP, 1, KV_SEP, 2, KV_SEP]);
  }

  lemma NameCollides()
    ensures var (a, b) := Shifted(NameWithoutItemSep); Stream(a) == Stream(b)
  {
    var (a, b) := Shifted(NameWithoutItemSep);
    StreamOfNone();
    StreamOfOne([1], [2]);
    StreamOfOne([ITEM_SEP, 1], [2]);
    StreamOfParts(a, [], [], [1, KV_SEP, 2, KV_SEP]);
    StreamOfParts(b, [], [], [ITEM_SEP, 1, KV_SEP, 2, KV_SEP]);
  }

  lemma ExtraLabelsCollide()
    ensures var (a, b) := Shifted(ExtraLabelsWithoutItemSep); Stream(a) == Stream(b)
  {
    var (a, b) := Shifted(ExtraLabelsWithoutItemSep);
    StreamOfNone();
    StreamOfOne([1], [2]);
    StreamOfOne([ITEM_SEP, 1], [2]);
    StreamOfOne([ITEM_SEP], []);
    StreamOfOne([], []);
    StreamOfParts(a, [ITEM_SEP, KV_SEP, KV_SEP], [], [1, KV_SEP, 2, KV_SEP]);
    StreamOfParts(b, [], [KV_SEP, KV_SEP], [ITEM_SEP, 1, KV_SEP, 2, KV_SEP]);
  }

  lemma AttributesCollide()
    ensures var (a, b) := Shifted(AttributesWithoutItemSep); Stream(a) == Stream(b)
  {
    var (a, b) := Shifted(AttributesWithoutItemSep);
    StreamOfNone();
    StreamOfOne([1], [2]);
    StreamOfOne([ITEM_SEP], []);
    StreamOfTwo([], [ITEM_SEP, 1], [2]);
    StreamOfParts(a, [], [ITEM_SEP, KV_SEP, KV_SEP], [1, KV_SEP, 2, KV_SEP]);
    StreamOfParts(b, [], [], [KV_SEP, KV_SEP, ITEM_SEP, 1, KV_SEP, 2, KV_SEP]);
  }

  lemma KvSepCollides(c: Condition)
    requires c.ExtraLabelsWithoutKvSep? || c.AttributesWithoutKvSep? || c.ResourceLabelsWithoutKvSep?
    ensures Stream(Shifted(c).0) == Stream(Shifted(c).1)
  {
    var (a, b) := Shifted(c);
    StreamOfNone();
    StreamOfOne([], [KV_SEP, 1, KV_SEP]);
    StreamOfTwo([], [1], []);
    var both: Bytes := [KV_SEP, KV_SEP, 1, KV_SEP, KV_SEP];
    assert MapStream(map[[] := [KV_SEP, 1, KV_SEP]]) == both && MapStream(map[[] := [], [1] := []]) == both;
  }

  lemma OneConditionFails(c: Condition, d: Condition)
    ensures (Meets(Shifted(c).0, d) <==> d != c) && Meets(Shifted(c).1, d)
  {
    var sep := if d.ExtraLabelsWithoutItemSep? || d.AttributesWithoutItemSep? then ITEM_SEP else KV_SEP;
    FreeOfOne([1], [2], sep);
    FreeOfOne([ITEM_SEP, 1], [2], sep);
    FreeOfOne([ITEM_SEP], [], sep);
    FreeOfOne([], [], sep);
    FreeOfOne([], [KV_SEP, 1, KV_SEP], sep);
    FreeOfTwo([], [ITEM_SEP, 1], [2], sep);
    FreeOfTwo([], [1], [], sep);
  }

  /** None of the conditions can be dropped: two different series that feed the same bytes,
      one of which meets all conditions and the other all but this one. */
  lemma EveryConditionIsNeeded(c: Condition)
    ensures var (a, b) := Shifted(c);
      && Stream(a) == Stream(b) && a != b && CleanId(b)
      && forall d: Condition :: Meets(a, d) <==> d != c
  {
    if c.ExtraLabelsWithoutKvSep? || c.AttributesWithoutKvSep? || c.ResourceLabelsWithoutKvSep? {
      KvSepCollides(c);
    } else {
      TypeCollides();
      NameCollides();
      ExtraLabelsCollide();
      AttributesCollide();
    }
    forall d: Condition
      ensures Meets(Shifted(c).0, d) <==> d != c
      ensures Meets(Shifted(c).1, d)
    {
      OneConditionFails(c, d);
    }
    assert Meets(Shifted(c).1, c) && !Meets(Shifted(c).0, c);
  }
}
