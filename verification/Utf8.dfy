/** The UTF-8 grammar (section 4 of RFC 3629) and the decoder that walks backwards. */
module Utf8 {

  import opened ByteStrings

  predicate Tail(b: Byte) {
    0x80 <= b <= 0xBF
  }

  predicate RuneStart(b: Byte) {
    !Tail(b)
  }

  // ---------- grammar ----------

  /** s is exactly one encoded character: UTF8-1, UTF8-2, UTF8-3 or UTF8-4. */
  predicate IsChar(s: Bytes) {
    || (|s| == 1 && s[0] <= 0x7F)
    || (|s| == 2 && 0xC2 <= s[0] <= 0xDF && Tail(s[1]))
    || (|s| == 3 && Tail(s[1]) && Tail(s[2])
        && (|| (s[0] == 0xE0 && s[1] >= 0xA0)
            || (0xE1 <= s[0] <= 0xEC)
            || (s[0] == 0xED && s[1] <= 0x9F)
            || (0xEE <= s[0] <= 0xEF)))
    || (|s| == 4 && Tail(s[1]) && Tail(s[2]) && Tail(s[3])
        && (|| (s[0] == 0xF0 && s[1] >= 0x90)
            || (0xF1 <= s[0] <= 0xF3)
            || (s[0] == 0xF4 && s[1] <= 0x8F)))
  }

  predicate StartsWithChar(s: Bytes, n: nat) {
    n <= |s| && IsChar(s[..n])
  }

  /** The length of the character at the front, or 0 if there is none. */
  function CharLength(s: Bytes): (n: nat)
    ensures n <= |s|
    ensures n > 0 <==> exists k :: 1 <= k <= 4 && StartsWithChar(s, k)
    ensures n > 0 ==> StartsWithChar(s, n)
  {
    if StartsWithChar(s, 1) then 1
    else if StartsWithChar(s, 2) then 2
    else if StartsWithChar(s, 3) then 3
    else if StartsWithChar(s, 4) then 4
    else 0
  }

  /** A sequence of encoded characters. */
  predicate Valid(s: Bytes) {
    s == [] || (var n := CharLength(s); n > 0 && Valid(s[n..]))
  }

  /** No character is a proper prefix of another one. */
  lemma CharIsUnique(s: Bytes, n: nat, m: nat)
    requires StartsWithChar(s, n) && StartsWithChar(s, m)
    ensures n == m
  {
    assert s[..n][0] == s[0] && s[..m][0] == s[0];
  }

  lemma CharThenValid(s: Bytes, n: nat)
    requires StartsWithChar(s, n)
    ensures CharLength(s) == n && (Valid(s) <==> Valid(s[n..]))
  {
    CharIsUnique(s, n, CharLength(s));
  }

  /** Characters synchronize: the bytes after the first one of a character are tails. */
  lemma CharShape(s: Bytes)
    requires IsChar(s)
    ensures 1 <= |s| <= 4 && RuneStart(s[0]) && forall i :: 1 <= i < |s| ==> Tail(s[i])
  {
  }

  /** The code points that have an encoding: no surrogates, nothing above 0x10FFFF. */
  predicate IsScalar(c: nat) {
    c < 0xD800 || 0xE000 <= c <= 0x10FFFF
  }

  function EncodeRune(c: nat): Bytes
    requires IsScalar(c)
  {
    if c < 0x80 then [c]
    else if c < 0x800 then [0xC0 + c / 64, 0x80 + c % 64]
    else if c < 0x10000 then [0xE0 + c / 64 / 64, 0x80 + c / 64 % 64, 0x80 + c % 64]
    else [0xF0 + c / 64 / 64 / 64, 0x80 + c / 64 / 64 % 64, 0x80 + c / 64 % 64, 0x80 + c % 64]
  }

  /** The number with six more bits at the end. */
  function Extend(c: nat, bits: Byte): nat
    requires Tail(bits)
  {
    64 * c + (bits as int - 0x80)
  }

  /** The code point of a character. */
  function RuneOf(s: Bytes): nat
    requires IsChar(s)
  {
    if |s| == 1 then s[0]
    else if |s| == 2 then Extend(s[0] as int - 0xC0, s[1])
    else if |s| == 3 then Extend(Extend(s[0] as int - 0xE0, s[1]), s[2])
    else Extend(Extend(Extend(s[0] as int - 0xF0, s[1]), s[2]), s[3])
  }

  lemma ExtendSplits(c: nat, bits: Byte)
    requires Tail(bits)
    ensures Extend(c, bits) / 64 == c && 0x80 + Extend(c, bits) % 64 == bits
  {
  }

  lemma RuneIsChar(c: nat)
    requires IsScalar(c)
    ensures IsChar(EncodeRune(c))
  {
  }

  lemma CharOfTwoIsRune(s: Bytes)
    requires IsChar(s) && |s| == 2
    ensures IsScalar(RuneOf(s)) && EncodeRune(RuneOf(s)) == s
  {
    ExtendSplits(s[0] as int - 0xC0, s[1]);
  }

  lemma CharOfThreeIsRune(s: Bytes)
    requires IsChar(s) && |s| == 3
    ensures IsScalar(RuneOf(s)) && EncodeRune(RuneOf(s)) == s
  {
    var c := Extend(s[0] as int - 0xE0, s[1]);
    ExtendSplits(s[0] as int - 0xE0, s[1]);
    ExtendSplits(c, s[2]);
    assert 0x20 <= c < 0x400 && !(0x360 <= c < 0x380);
  }

  lemma CharOfFourIsRune(s: Bytes)
    requires IsChar(s) && |s| == 4
    ensures IsScalar(RuneOf(s)) && EncodeRune(RuneOf(s)) == s
  {
    var c := Extend(s[0] as int - 0xF0, s[1]);
    ExtendSplits(s[0] as int - 0xF0, s[1]);
    ExtendSplits(c, s[2]);
    var d := Extend(c, s[2]);
    ExtendSplits(d, s[3]);
    var r := Extend(d, s[3]);
    assert 0x10 <= c < 0x110;
    assert 0x400 <= d < 0x4400;
    assert 0x10000 <= r <= 0x10FFFF;
    assert r / 64 == d && d / 64 == c && c / 64 == s[0] as int - 0xF0;
  }

  lemma CharIsRune(s: Bytes)
    requires IsChar(s)
    ensures IsScalar(RuneOf(s)) && EncodeRune(RuneOf(s)) == s
  {
    if |s| == 2 {
      CharOfTwoIsRune(s);
    } else if |s| == 3 {
      CharOfThreeIsRune(s);
    } else if |s| == 4 {
      CharOfFourIsRune(s);
    }
  }

  /** The grammar describes exactly the encodings of the code points. */
  lemma GrammarIsEncoding(s: Bytes)
    ensures IsChar(s) <==> exists c: nat :: IsScalar(c) && s == EncodeRune(c)
  {
    if IsChar(s) {
      CharIsRune(s);
    }
    forall c: nat | IsScalar(c) ensures IsChar(EncodeRune(c)) {
      RuneIsChar(c);
    }
  }

  // ---------- ends of characters ----------

  predicate EndsWithCharOf(s: Bytes, n: nat) {
    n <= |s| && IsChar(s[|s| - n..])
  }

  ghost predicate EndsWithChar(s: Bytes) {
    exists n: nat :: EndsWithCharOf(s, n)
  }

  lemma {:induction false} ValidEndsWithChar(s: Bytes)
    requires Valid(s) && s != []
    ensures EndsWithChar(s)
  {
    var n := CharLength(s);
    if n == |s| {
      assert s[|s| - n..] == s[..n];
      assert EndsWithCharOf(s, n);
    } else {
      ValidEndsWithChar(s[n..]);
      var k: nat :| EndsWithCharOf(s[n..], k);
      assert s[n..][|s[n..]| - k..] == s[|s| - k..];
      assert EndsWithCharOf(s, k);
    }
  }

  lemma InsideCharIsTail(s: Bytes, n: nat, i: nat)
    requires StartsWithChar(s, n) && 0 < i < n
    ensures Tail(s[i])
  {
    CharShape(s[..n]);
    assert s[..n][i] == s[i];
  }

  lemma StartOfLastChar(p: Bytes, k: nat)
    requires EndsWithCharOf(p, k)
    ensures 1 <= k <= |p| && RuneStart(p[|p| - k])
  {
    CharShape(p[|p| - k..]);
  }

  lemma OnlyChar(s: Bytes, n: nat, m: nat)
    requires StartsWithChar(s, n) && m <= |s| && EndsWithCharOf(s[..m], m)
    ensures n == m
  {
    assert s[..m][0..] == s[..m];
    CharIsUnique(s, n, m);
  }

  lemma LaterChar(s: Bytes, n: nat, m: nat, k: nat)
    requires StartsWithChar(s, n) && k < m <= |s| && EndsWithCharOf(s[..m], k)
    ensures n <= m - k && EndsWithCharOf(s[n..][..m - n], k)
  {
    StartOfLastChar(s[..m], k);
    if m - k < n {
      InsideCharIsTail(s, n, m - k);
      assert false;
    }
    assert s[n..][..m - n][m - n - k..] == s[..m][m - k..];
  }

  lemma SliceOfPrefix(s: Bytes, n: nat, m: nat)
    requires n <= m <= |s|
    ensures s[..m][..n] == s[..n] && s[..m][n..] == s[n..][..m - n]
  {
  }

  lemma FirstCharOfPrefix(s: Bytes, n: nat, m: nat)
    requires StartsWithChar(s, n) && n <= m <= |s|
    ensures Valid(s[..m]) <==> Valid(s[n..][..m - n])
  {
    SliceOfPrefix(s, n, m);
    CharThenValid(s[..m], n);
  }

  /** In a valid string a prefix that ends with a character is valid. */
  lemma {:induction false} EndOfCharIsBoundary(s: Bytes, m: nat, k: nat)
    requires Valid(s) && m <= |s| && EndsWithCharOf(s[..m], k)
    ensures Valid(s[..m])
  {
    StartOfLastChar(s[..m], k);
    var n := CharLength(s);
    if m == k {
      OnlyChar(s, n, m);
      assert s[..m][n..] == [];
    } else {
      LaterChar(s, n, m, k);
      EndOfCharIsBoundary(s[n..], m - n, k);
    }
    FirstCharOfPrefix(s, n, m);
  }

  /** The prefixes of a valid string that are valid are those that end with a character. */
  lemma PrefixIsValidIff(s: Bytes, m: nat)
    requires Valid(s) && m <= |s|
    ensures Valid(s[..m]) <==> m == 0 || EndsWithChar(s[..m])
  {
    if m > 0 && Valid(s[..m]) {
      ValidEndsWithChar(s[..m]);
    }
    if m > 0 && EndsWithChar(s[..m]) {
      var k: nat :| EndsWithCharOf(s[..m], k);
      EndOfCharIsBoundary(s, m, k);
    }
  }

  /** No four consecutive positions of a valid string are without a boundary. */
  lemma {:induction false} BoundaryNearby(s: Bytes, m: nat) returns (k: nat)
    requires Valid(s) && m <= |s|
    ensures k <= m <= k + 3 && Valid(s[..k])
  {
    var n := CharLength(s);
    if m == 0 {
      k := 0;
    } else if m < n {
      CharShape(s[..n]);
      k := 0;
    } else {
      var rest := BoundaryNearby(s[n..], m - n);
      k := rest + n;
      FirstCharOfPrefix(s, n, k);
    }
  }

  // ---------- decoding backwards ----------

  /** NoByte and BadByte are the decoder's error rune with size 0 and 1. */
  datatype Decoded = NoByte | BadByte | Rune(size: nat)

  function DecodeRune(p: Bytes): Decoded {
    if p == [] then NoByte
    else
      var n := CharLength(p);
      if n == 0 then BadByte else Rune(n)
  }

  /** Looks for the start of a character, from start down to lim. */
  function ScanBack(p: Bytes, start: int, lim: nat): (at: int)
    requires start < |p| && lim <= start + 1
    ensures lim - 1 <= at <= start
    ensures at >= lim ==> RuneStart(p[at])
    ensures forall i :: at < i <= start ==> Tail(p[i])
    decreases start + 1
  {
    if start < lim || RuneStart(p[start]) then start else ScanBack(p, start - 1, lim)
  }

  /** Decodes the last character: at most four bytes are looked at. */
  function DecodeLastRune(p: Bytes): Decoded {
    if p == [] then NoByte
    else if p[|p| - 1] < 0x80 then Rune(1)
    else
      var lim := if |p| < 4 then 0 else |p| - 4;
      var at := if |p| == 1 then -1 else ScanBack(p, |p| - 2, lim);
      var start := if at < 0 then 0 else at;
      var d := DecodeRune(p[start..]);
      if d.Rune? && start + d.size == |p| then d else BadByte
  }

  /** The last byte is bad exactly when no character ends there. */
  lemma LastByteIsBadIff(p: Bytes)
    requires p != []
    ensures DecodeLastRune(p) == BadByte <==> !EndsWithChar(p)
  {
    if EndsWithChar(p) {
      var n: nat :| EndsWithCharOf(p, n);
      LastCharIsDecoded(p, n);
    } else if DecodeLastRune(p) != BadByte {
      var n := DecodeLastRune(p).size;
      assert n == 1 && p[|p| - 1] < 0x80 ==> IsChar(p[|p| - 1..]);
      assert p[|p| - n..][..n] == p[|p| - n..];
      assert EndsWithCharOf(p, n);
    }
  }

  /** Scanning back from a tail stops at the start of its character. */
  lemma {:induction false} ScanFindsStart(p: Bytes, start: int, lim: nat, from: nat)
    requires lim <= from <= start < |p| && RuneStart(p[from])
    requires forall i :: from < i <= start ==> Tail(p[i])
    ensures ScanBack(p, start, lim) == from
    decreases start - from
  {
    if start > from {
      ScanFindsStart(p, start - 1, lim, from);
    }
  }

  lemma CharAtEnd(p: Bytes, n: nat)
    requires EndsWithCharOf(p, n)
    ensures 1 <= n <= 4 && RuneStart(p[|p| - n]) && forall i :: |p| - n < i < |p| ==> Tail(p[i])
    ensures CharLength(p[|p| - n..]) == n && (p[|p| - 1] < 0x80 <==> n == 1)
  {
    var c := p[|p| - n..];
    CharShape(c);
    assert c[..n] == c;
    CharThenValid(c, n);
    forall i | |p| - n < i < |p| ensures Tail(p[i]) {
      assert p[i] == c[i - (|p| - n)];
    }
    assert c[0] == p[|p| - n];
  }

  lemma LastCharIsDecoded(p: Bytes, n: nat)
    requires p != [] && EndsWithCharOf(p, n)
    ensures DecodeLastRune(p) == Rune(n)
  {
    CharAtEnd(p, n);
    if n > 1 {
      ScanFindsStart(p, |p| - 2, if |p| < 4 then 0 else |p| - 4, |p| - n);
    }
  }

  // ---------- sanitizing ----------

  /** Drops every byte that starts no character. */
  function Sanitize(s: Bytes): Bytes {
    if s == [] then []
    else
      var n := CharLength(s);
      if n == 0 then Sanitize(s[1..]) else s[..n] + Sanitize(s[n..])
  }

  lemma {:induction false} SanitizeIsValid(s: Bytes)
    ensures Valid(Sanitize(s))
  {
    if s != [] {
      var n := CharLength(s);
      SanitizeIsValid(s[if n == 0 then 1 else n..]);
      if n > 0 {
        var rest := Sanitize(s[n..]);
        assert (s[..n] + rest)[..n] == s[..n] && (s[..n] + rest)[n..] == rest;
        CharThenValid(s[..n] + rest, n);
      }
    }
  }

  /** Exactly the valid strings are left alone. */
  lemma {:induction false} SanitizeKeepsIff(s: Bytes)
    ensures Sanitize(s) == s <==> Valid(s)
  {
    SanitizeIsValid(s);
    if s != [] && Valid(s) {
      SanitizeKeepsIff(s[CharLength(s)..]);
    }
  }

  function Join(pieces: seq<Bytes>): Bytes {
    if pieces == [] then [] else pieces[0] + Join(pieces[1..])
  }

  /** The string read from the front: a character where one starts, a single byte where
      none does. */
  ghost predicate Reads(pieces: seq<Bytes>) {
    pieces != [] ==>
      && (if NoCharAt(Join(pieces)) then |pieces[0]| == 1 else IsChar(pieces[0]))
      && Reads(pieces[1..])
  }

  ghost predicate NoCharAt(s: Bytes) {
    forall n: nat :: !StartsWithChar(s, n)
  }

  function CharsOf(pieces: seq<Bytes>): seq<Bytes> {
    if pieces == [] then []
    else (if IsChar(pieces[0]) then [pieces[0]] else []) + CharsOf(pieces[1..])
  }

  lemma {:induction false} ReadingExists(s: Bytes) returns (pieces: seq<Bytes>)
    ensures Reads(pieces) && Join(pieces) == s
  {
    if s == [] {
      pieces := [];
    } else {
      var n := CharLength(s);
      var k := if n == 0 then 1 else n;
      var rest := ReadingExists(s[k..]);
      pieces := [s[..k]] + rest;
      assert pieces[1..] == rest && s == s[..k] + s[k..];
      NoCharIff(s);
    }
  }

  lemma NoCharIff(s: Bytes)
    ensures NoCharAt(s) <==> CharLength(s) == 0
  {
    forall n: nat | StartsWithChar(s, n) ensures CharLength(s) == n {
      CharThenValid(s, n);
    }
  }

  /** Every character that starts where the string is read survives, in order, and nothing
      else does. */
  lemma {:induction false} SanitizeKeepsChars(s: Bytes, pieces: seq<Bytes>)
    requires Reads(pieces) && Join(pieces) == s
    ensures Sanitize(s) == Join(CharsOf(pieces))
  {
    if pieces != [] {
      var first, rest := pieces[0], Join(pieces[1..]);
      assert s == first + rest && s[..|first|] == first && s[|first|..] == rest;
      assert CharsOf(pieces) == (if IsChar(first) then [first] else []) + CharsOf(pieces[1..]);
      NoCharIff(s);
      SanitizeKeepsChars(rest, pieces[1..]);
      if IsChar(first) {
        assert StartsWithChar(s, |first|);
        CharThenValid(s, |first|);
        assert CharsOf(pieces)[1..] == CharsOf(pieces[1..]);
      } else {
        assert CharsOf(pieces) == CharsOf(pieces[1..]);
      }
    }
  }
}
