/** Truncatable strings of the trace exporter. */
module Truncation {
  import opened DataPoints
  import opened ByteStrings
  import opened Utf8

  datatype TruncatableString = TruncatableString(value: Bytes, truncatedByteCount: int32)

  function Clip32(x: int): int32 {
    if x < -TWO_31 then -TWO_31 else if x > TWO_31 - 1 then TWO_31 - 1 else x
  }

  /** The count is the number of bytes dropped, or the largest 32-bit number. */
  predicate CountsDropped(t: TruncatableString, dropped: int) {
    t.truncatedByteCount == if dropped < 0x8000_0000 then dropped else 0x7FFF_FFFF
  }

  /** t is the longest prefix of s with at most limit bytes that is empty or ends with a
      character. */
  ghost predicate LongestAtCharEnd(t: Bytes, s: Bytes, limit: nat) {
    && |t| <= limit && t <= s
    && (t == [] || EndsWithChar(t))
    && forall m :: |t| < m <= limit && m <= |s| ==> !EndsWithChar(s[..m])
  }

  /** Strips bytes off the end until the last character decodes. */
  method Trunc(s: Bytes, limit: nat) returns (t: TruncatableString)
    ensures |s| <= limit ==> t == TruncatableString(s, 0)
    ensures |s| > limit ==> LongestAtCharEnd(t.value, s, limit)
    ensures CountsDropped(t, |s| - |t.value|)
  {
    if |s| > limit {
      var b := s[..limit];
      while true
        invariant |b| <= limit && b == s[..|b|]
        invariant forall m :: |b| < m <= limit ==> !EndsWithChar(s[..m])
        decreases |b|
      {
        var d := DecodeLastRune(b);
        if b != [] {
          LastByteIsBadIff(b);
        }
        if d != BadByte {
          break;
        }
        b := b[..|b| - 1];
      }
      return TruncatableString(b, Clip32(|s| - |b|));
    }
    return TruncatableString(s, 0);
  }

  /** t is the longest valid prefix of s with at most limit bytes, and drops at most three
      bytes more than the limit does. */
  ghost predicate LongestValid(t: Bytes, s: Bytes, limit: nat) {
    && |t| <= limit && t <= s && Valid(t)
    && (forall m :: |t| < m <= limit && m <= |s| ==> !Valid(s[..m]))
    && (if |s| <= limit then t == s else |t| + 3 >= limit)
  }

  lemma CharEndsAreValidPrefixes(t: Bytes, s: Bytes, limit: nat)
    requires Valid(s) && limit < |s| && LongestAtCharEnd(t, s, limit)
    ensures LongestValid(t, s, limit)
  {
    assert t == s[..|t|];
    PrefixIsValidIff(s, |t|);
    forall m | |t| < m <= limit ensures !Valid(s[..m]) {
      PrefixIsValidIff(s, m);
    }
    var k := BoundaryNearby(s, limit);
  }

  method TruncValid(s: Bytes, limit: nat) returns (t: TruncatableString)
    requires Valid(s)
    ensures LongestValid(t.value, s, limit) && CountsDropped(t, |s| - |t.value|)
  {
    t := Trunc(s, limit);
    if |s| > limit {
      CharEndsAreValidPrefixes(t.value, s, limit);
    } else {
      assert t.value == s;
    }
  }

  /** What the exporter sends for any string: it is sanitized, then truncated. A valid
      string is only truncated. */
  method TruncSanitized(name: Bytes, limit: nat) returns (t: TruncatableString)
    ensures LongestValid(t.value, Sanitize(name), limit)
    ensures CountsDropped(t, |Sanitize(name)| - |t.value|)
    ensures Valid(name) <==> Sanitize(name) == name
  {
    SanitizeIsValid(name);
    SanitizeKeepsIff(name);
    t := TruncValid(Sanitize(name), limit);
  }

  /** Truncating again changes nothing. */
  method TruncTwice(name: Bytes, limit: nat) returns (t: TruncatableString, again: TruncatableString)
    ensures again == TruncatableString(t.value, 0)
  {
    t := TruncSanitized(name, limit);
    SanitizeKeepsIff(t.value);
    again := TruncSanitized(t.value, limit);
  }
}
