/** Hexadecimal, decimal and big-endian forms of numbers and byte strings. */
module Numerals {
  import opened ByteStrings
  import opened DataPoints

  // ---------- digits ----------

  predicate IsDigit(c: char) {
    '0' <= c <= '9'
  }

  predicate IsHexDigit(c: char) {
    IsDigit(c) || 'a' <= c <= 'f'
  }

  function HexDigit(n: nat): (c: char)
    requires n < 16
    ensures IsHexDigit(c) && HexValue(c) == n
    ensures IsDigit(c) <==> n < 10
  {
    if n < 10 then '0' + n as char else 'a' + (n - 10) as char
  }

  function HexValue(c: char): (n: nat)
    requires IsHexDigit(c)
    ensures n < 16
  {
    if IsDigit(c) then (c - '0') as nat else (c - 'a') as nat + 10
  }

  lemma HexDigitsAre(n: nat)
    requires n < 16
    ensures HexDigit(n) == "0123456789abcdef"[n]
  {
  }

  lemma HexDigitOfValue(c: char)
    requires IsHexDigit(c)
    ensures HexDigit(HexValue(c)) == c
  {
  }

  predicate AllDigits(s: string) {
    forall i :: 0 <= i < |s| ==> IsDigit(s[i])
  }

  predicate AllHexDigits(s: string) {
    forall i :: 0 <= i < |s| ==> IsHexDigit(s[i])
  }

  // ---------- hexadecimal ----------

  function EncodeHex(bytes: Bytes): (s: string)
    ensures |s| == 2 * |bytes| && AllHexDigits(s)
  {
    if bytes == [] then ""
    else [HexDigit(bytes[0] / 16), HexDigit(bytes[0] % 16)] + EncodeHex(bytes[1..])
  }

  function DecodeHex(s: string): (bytes: Bytes)
    requires |s| % 2 == 0 && AllHexDigits(s)
    ensures |bytes| == |s| / 2
  {
    if s == "" then [] else [16 * HexValue(s[0]) + HexValue(s[1])] + DecodeHex(s[2..])
  }

  /** Two characters for each byte, the high half first. */
  lemma {:induction false} HexAt(bytes: Bytes, i: nat)
    requires i < |bytes|
    ensures EncodeHex(bytes)[2 * i] == "0123456789abcdef"[bytes[i] / 16]
    ensures EncodeHex(bytes)[2 * i + 1] == "0123456789abcdef"[bytes[i] % 16]
  {
    if i == 0 {
      HexDigitsAre(bytes[0] / 16);
      HexDigitsAre(bytes[0] % 16);
    } else {
      HexAt(bytes[1..], i - 1);
      assert EncodeHex(bytes)[2..] == EncodeHex(bytes[1..]);
    }
  }

  lemma {:induction false} DecodeAfterEncode(bytes: Bytes)
    ensures DecodeHex(EncodeHex(bytes)) == bytes
  {
    if bytes != [] {
      DecodeAfterEncode(bytes[1..]);
      assert EncodeHex(bytes)[2..] == EncodeHex(bytes[1..]);
      assert bytes == [bytes[0]] + bytes[1..];
    }
  }

  lemma HexPair(c: char, d: char)
    requires IsHexDigit(c) && IsHexDigit(d)
    ensures var b: Byte := 16 * HexValue(c) + HexValue(d); HexDigit(b / 16) == c && HexDigit(b % 16) == d
  {
    HexDigitOfValue(c);
    HexDigitOfValue(d);
  }

  lemma {:induction false} EncodeAfterDecode(s: string)
    requires |s| % 2 == 0 && AllHexDigits(s)
    ensures EncodeHex(DecodeHex(s)) == s
  {
    if s != "" {
      EncodeAfterDecode(s[2..]);
      HexPair(s[0], s[1]);
      assert DecodeHex(s)[1..] == DecodeHex(s[2..]);
      assert s == [s[0], s[1]] + s[2..];
    }
  }

  // ---------- decimal ----------

  function Decimal(n: nat): (s: string)
    ensures |s| > 0 && AllDigits(s)
  {
    if n < 10 then [HexDigit(n)] else Decimal(n / 10) + [HexDigit(n % 10)]
  }

  function DecimalValue(s: string): nat
    requires AllDigits(s)
  {
    if s == "" then 0 else 10 * DecimalValue(s[..|s| - 1]) + HexValue(s[|s| - 1])
  }

  lemma {:induction false} ValueOfDecimal(n: nat)
    ensures DecimalValue(Decimal(n)) == n
  {
    if n >= 10 {
      ValueOfDecimal(n / 10);
      assert Decimal(n)[..|Decimal(n)| - 1] == Decimal(n / 10);
    } else {
      assert Decimal(n)[..0] == "";
    }
  }

  /** One more digit, and the digits are those of the decimal system. */
  lemma DecimalSnoc(s: string, c: char)
    requires AllDigits(s) && '0' <= c <= '9'
    ensures AllDigits(s + [c]) && DecimalValue(s + [c]) == 10 * DecimalValue(s) + (c as int - '0' as int)
    ensures DecimalValue("") == 0
  {
    assert (s + [c])[..|s|] == s;
  }

  function Pow10(k: nat): nat {
    if k == 0 then 1 else 10 * Pow10(k - 1)
  }

  lemma {:induction false} DecimalLength(n: nat, k: nat)
    requires k > 0 && n < Pow10(k)
    ensures |Decimal(n)| <= k
  {
    if n >= 10 {
      assert Pow10(k) == 10 * Pow10(k - 1);
      assert k > 1;
      DecimalLength(n / 10, k - 1);
    }
  }

  /** Every 64-bit number has at most 20 digits. */
  lemma DecimalOfUint64(n: uint64)
    ensures 1 <= |Decimal(n)| <= 20
  {
    assert Pow10(5) == 100_000;
    assert Pow10(10) == 100_000 * Pow10(5);
    assert Pow10(15) == 100_000 * Pow10(10);
    assert Pow10(20) == 100_000 * Pow10(15);
    DecimalLength(n, 20);
  }

  lemma DecimalIsZero(n: nat)
    ensures Decimal(n) == "0" <==> n == 0
  {
    ValueOfDecimal(n);
    if Decimal(n) == "0" {
      assert "0"[..0] == "";
    }
  }

  // ---------- big-endian ----------

  /** binary.BigEndian.Uint64, for any number of bytes. */
  function BigEndian(bytes: Bytes): nat {
    if bytes == [] then 0 else 256 * BigEndian(bytes[..|bytes| - 1]) + bytes[|bytes| - 1]
  }

  function Pow256(k: nat): nat {
    if k == 0 then 1 else 256 * Pow256(k - 1)
  }

  /** The last byte is the least significant one. */
  lemma BigEndianSnoc(bytes: Bytes, b: Byte)
    ensures BigEndian(bytes + [b]) == 256 * BigEndian(bytes) + b && BigEndian([]) == 0
  {
    assert (bytes + [b])[..|bytes|] == bytes;
  }

  lemma {:induction false} BigEndianBound(bytes: Bytes)
    ensures BigEndian(bytes) < Pow256(|bytes|)
  {
    if bytes != [] {
      BigEndianBound(bytes[..|bytes| - 1]);
    }
  }

  /** Byte strings of one length are determined by their number. */
  lemma {:induction false} BigEndianIsInjective(a: Bytes, b: Bytes)
    requires |a| == |b| && BigEndian(a) == BigEndian(b)
    ensures a == b
  {
    if a != [] {
      var n := |a| - 1;
      assert a[n] == BigEndian(a) % 256 == b[n];
      BigEndianIsInjective(a[..n], b[..n]);
      assert a == a[..n] + [a[n]] && b == b[..n] + [b[n]];
    }
  }

  lemma Uint64Bound(bytes: Bytes)
    requires |bytes| == 8
    ensures BigEndian(bytes) < TWO_64
  {
    BigEndianBound(bytes);
    Pow256Of8();
  }

  lemma {:induction false} BigEndianCons(b: Byte, bytes: Bytes)
    ensures BigEndian([b] + bytes) == b * Pow256(|bytes|) + BigEndian(bytes)
  {
    var all := [b] + bytes;
    if bytes == [] {
      assert all[..0] == [];
    } else {
      assert all[..|all| - 1] == [b] + bytes[..|bytes| - 1];
      BigEndianCons(b, bytes[..|bytes| - 1]);
    }
  }

  lemma MoveByte(v: int, rest: int, weight: int, tail: int)
    requires v == rest * weight + tail
    ensures v == rest / 256 * (256 * weight) + (rest % 256 * weight + tail)
  {
    var q, r := rest / 256, rest % 256;
    assert rest == 256 * q + r;
    assert (256 * q + r) * weight == q * (256 * weight) + r * weight;
  }

  /** binary.BigEndian.PutUint64: the bytes of v, the most significant one first. */
  method PutUint64(v: uint64) returns (buf: array<Byte>)
    ensures buf.Length == 8 && BigEndian(buf[..]) == v
  {
    buf := new Byte[8](_ => 0);
    var rest: nat := v;
    for i := 0 to 8
      invariant v == rest * Pow256(i) + BigEndian(buf[8 - i..])
    {
      ghost var tail := buf[8 - i..];
      MoveByte(v, rest, Pow256(i), BigEndian(tail));
      BigEndianCons(rest % 256, tail);
      buf[7 - i] := rest % 256;
      assert buf[7 - i..] == [buf[7 - i]] + tail;
      rest := rest / 256;
    }
    assert buf[0..] == buf[..];
    Pow256Of8();
    AllMoved(v, rest, BigEndian(buf[..]));
  }

  lemma AllMoved(v: int, rest: nat, n: nat)
    requires v < TWO_64 && v == rest * TWO_64 + n
    ensures v == n
  {
  }

  lemma Pow256Of8()
    ensures Pow256(8) == TWO_64
  {
    assert Pow256(2) == 65_536;
    assert Pow256(4) == 65_536 * Pow256(2);
    assert Pow256(6) == 65_536 * Pow256(4);
    assert Pow256(8) == 65_536 * Pow256(6);
  }
}
