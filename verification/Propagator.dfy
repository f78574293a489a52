/** The X-Cloud-Trace-Context header: writing it, reading it, and what survives. */
module Propagator {
  import opened ByteStrings
  import opened DataPoints
  import opened Numerals

  const HEADER_NAME: string := "x-cloud-trace-context"

  /** 16 bytes of trace ID, 8 bytes of span ID in big-endian order. */
  datatype SpanContext = SpanContext(traceID: Bytes, spanID: Bytes, flags: Byte, remote: bool)

  predicate Sized(sc: SpanContext) {
    |sc.traceID| == 16 && |sc.spanID| == 8
  }

  function ZeroBytes(n: nat): (bytes: Bytes)
    ensures |bytes| == n
  {
    if n == 0 then [] else [0] + ZeroBytes(n - 1)
  }

  /** strings.Repeat("0", n). */
  function RepeatZero(n: nat): (s: string)
    ensures |s| == n
  {
    if n == 0 then "" else "0" + RepeatZero(n - 1)
  }

  // ---------- grammar ----------

  /** The named groups of the header pattern; an absent flags group is empty. */
  datatype Groups = Groups(traceID: string, spanID: string, flags: string)

  function Text(g: Groups): string {
    g.traceID + "/" + g.spanID + if g.flags == "" then "" else ";o=" + g.flags
  }

  predicate WellFormed(g: Groups) {
    && |g.traceID| == 32 && AllHexDigits(g.traceID)
    && 1 <= |g.spanID| <= 20 && AllDigits(g.spanID)
    && |g.flags| <= 1 && AllDigits(g.flags)
  }

  /** The header is written with these groups. */
  predicate Fits(header: string, g: Groups) {
    WellFormed(g) && header == Text(g)
  }

  /** Where the digits that begin at i end. */
  function DigitsEnd(s: string, i: nat): (end: nat)
    requires i <= |s|
    ensures i <= end <= |s| && AllDigits(s[i..end])
    decreases |s| - i
  {
    if i < |s| && IsDigit(s[i]) then DigitsEnd(s, i + 1) else i
  }

  lemma {:induction false} DigitsEndAt(s: string, i: nat, end: nat)
    requires i <= end <= |s| && AllDigits(s[i..end]) && (end < |s| ==> !IsDigit(s[end]))
    ensures DigitsEnd(s, i) == end
    decreases end - i
  {
    if i < end {
      assert s[i] == s[i..end][0];
      assert s[i + 1..end] == s[i..end][1..];
      DigitsEndAt(s, i + 1, end);
    }
  }

  function MatchTail(traceID: string, spanID: string, tail: string): Option<Groups> {
    if !(1 <= |spanID| <= 20) then None
    else if tail == "" then Some(Groups(traceID, spanID, ""))
    else if |tail| == 4 && tail[..3] == ";o=" && IsDigit(tail[3]) then Some(Groups(traceID, spanID, tail[3..]))
    else None
  }

  /** Matches the whole header against the pattern. */
  function FindSubmatch(header: string): Option<Groups> {
    if |header| < 33 || !AllHexDigits(header[..32]) || header[32] != '/' then None
    else
      var end := DigitsEnd(header, 33);
      MatchTail(header[..32], header[33..end], header[end..])
  }

  lemma MatchIsSound(header: string)
    ensures FindSubmatch(header).Some? ==> Fits(header, FindSubmatch(header).value)
  {
    if FindSubmatch(header).Some? {
      var end := DigitsEnd(header, 33);
      var tail := header[end..];
      assert header == header[..32] + [header[32]] + header[33..end] + tail;
      assert tail != "" ==> tail == tail[..3] + tail[3..];
    }
  }

  lemma MatchIsComplete(header: string, g: Groups)
    requires Fits(header, g)
    ensures FindSubmatch(header) == Some(g)
  {
    var end := 33 + |g.spanID|;
    var tail := if g.flags == "" then "" else ";o=" + g.flags;
    assert header == g.traceID + "/" + g.spanID + tail;
    assert header[..32] == g.traceID && header[32] == '/';
    assert header[33..end] == g.spanID && header[end..] == tail;
    DigitsEndAt(header, 33, end);
    assert tail != "" ==> tail[..3] == ";o=" && tail[3..] == g.flags;
  }

  /** The pattern is unambiguous. */
  lemma GroupsAreUnique(header: string, g: Groups, g': Groups)
    requires Fits(header, g) && Fits(header, g')
    ensures g == g'
  {
    MatchIsComplete(header, g);
    MatchIsComplete(header, g');
  }

  // ---------- what a header means ----------

  predicate UsableGroups(g: Groups)
    requires WellFormed(g)
  {
    g.traceID != RepeatZero(32) && g.spanID != "0" && DecimalValue(g.spanID) < TWO_64
  }

  predicate Denotes(g: Groups, sc: SpanContext)
    requires WellFormed(g)
  {
    && Sized(sc) && sc.remote
    && EncodeHex(sc.traceID) == g.traceID
    && BigEndian(sc.spanID) == DecimalValue(g.spanID)
    && sc.flags == if g.flags == "" || g.flags == "0" then 0 else 1
  }

  ghost predicate Accepted(header: string) {
    exists g :: Fits(header, g) && UsableGroups(g)
  }

  ghost predicate Extracts(header: string, sc: SpanContext) {
    exists g :: Fits(header, g) && UsableGroups(g) && Denotes(g, sc)
  }

  lemma ExtractedIsUnique(header: string, a: SpanContext, b: SpanContext)
    requires Extracts(header, a) && Extracts(header, b)
    ensures a == b
  {
    var g :| Fits(header, g) && UsableGroups(g) && Denotes(g, a);
    var g' :| Fits(header, g') && UsableGroups(g') && Denotes(g', b);
    GroupsAreUnique(header, g, g');
    DecodeAfterEncode(a.traceID);
    DecodeAfterEncode(b.traceID);
    BigEndianIsInjective(a.spanID, b.spanID);
  }

  /** Position by position: which headers are accepted. */
  ghost predicate AcceptedAt(header: string, end: nat) {
    && 34 <= end <= 53 && end <= |header|
    && (forall i :: 0 <= i < 32 ==> '0' <= header[i] <= '9' || 'a' <= header[i] <= 'f')
    && header[32] == '/'
    && (forall i :: 33 <= i < end ==> '0' <= header[i] <= '9')
    && (|header| == end
        || (|header| == end + 4 && header[end..end + 3] == ";o=" && '0' <= header[end + 3] <= '9'))
    && (exists i :: 0 <= i < 32 && header[i] != '0')
    && header[33..end] != "0"
  }

  lemma {:induction false} ZerosAre(s: string, n: nat)
    requires |s| == n
    ensures s == RepeatZero(n) <==> forall i :: 0 <= i < n ==> s[i] == '0'
  {
    if n > 0 {
      ZerosAre(s[1..], n - 1);
      assert s == [s[0]] + s[1..] && RepeatZero(n) == ['0'] + RepeatZero(n - 1);
      assert forall i :: 1 <= i < n ==> s[i] == s[1..][i - 1];
    }
  }

  ghost predicate AcceptedHeader(header: string, end: nat) {
    AcceptedAt(header, end) && AllDigits(header[33..end]) && DecimalValue(header[33..end]) < TWO_64
  }

  /** What an accepted header says, position by position: the 32 hexadecimal digits, the
      number after the slash, and whether there is a flag other than 0. */
  ghost predicate Says(header: string, end: nat, sc: SpanContext)
    requires AcceptedHeader(header, end)
  {
    && |sc.traceID| == 16 && |sc.spanID| == 8 && sc.remote
    && EncodeHex(sc.traceID) == header[..32]
    && BigEndian(sc.spanID) == DecimalValue(header[33..end])
    && sc.flags == if |header| == end || header[end + 3] == '0' then 0 else 1
  }

  /** The groups of the header, by position. */
  function Cut(header: string, end: nat): Groups
    requires 34 <= end <= |header| && (|header| == end || |header| == end + 4)
  {
    Groups(header[..32], header[33..end], if |header| == end then "" else header[end + 3..])
  }

  lemma CutFits(header: string, end: nat)
    requires AcceptedHeader(header, end)
    ensures Fits(header, Cut(header, end)) && UsableGroups(Cut(header, end))
  {
    var g := Cut(header, end);
    ZerosAre(g.traceID, 32);
    assert header == header[..32] + [header[32]] + header[33..end] + header[end..];
    assert g.flags != "" ==> header[end..] == ";o=" + g.flags;
    assert AllHexDigits(g.traceID) && AllDigits(g.flags);
  }

  lemma CutDenotes(header: string, end: nat, sc: SpanContext)
    requires AcceptedHeader(header, end) && Fits(header, Cut(header, end))
    ensures Says(header, end, sc) <==> Denotes(Cut(header, end), sc)
  {
    var flags := Cut(header, end).flags;
    if |header| != end {
      assert flags == [header[end + 3]];
    }
  }

  lemma FitsAt(header: string, g: Groups) returns (end: nat)
    requires Fits(header, g) && UsableGroups(g)
    ensures AcceptedHeader(header, end)
  {
    end := 33 + |g.spanID|;
    ZerosAre(g.traceID, 32);
    assert header == g.traceID + "/" + g.spanID + if g.flags == "" then "" else ";o=" + g.flags;
    assert header[..32] == g.traceID && header[33..end] == g.spanID && header[32] == '/';
    assert forall i :: 0 <= i < 32 ==> header[i] == g.traceID[i];
    assert forall i :: 33 <= i < end ==> header[i] == g.spanID[i - 33];
    assert g.flags != "" ==> header[end..end + 3] == ";o=" && header[end + 3] == g.flags[0];
  }

  /** The accepted headers, character by character. */
  lemma AcceptedIff(header: string)
    ensures Accepted(header) <==> exists end: nat :: AcceptedHeader(header, end)
  {
    if Accepted(header) {
      var g :| Fits(header, g) && UsableGroups(g);
      var end := FitsAt(header, g);
    }
    if end: nat :| AcceptedHeader(header, end) {
      CutFits(header, end);
    }
  }

  /** What is extracted from them. */
  lemma ExtractsIff(header: string, end: nat, sc: SpanContext)
    requires AcceptedHeader(header, end)
    ensures Extracts(header, sc) <==> Says(header, end, sc)
  {
    var g := Cut(header, end);
    CutFits(header, end);
    CutDenotes(header, end, sc);
    if Extracts(header, sc) {
      var g' :| Fits(header, g') && UsableGroups(g') && Denotes(g', sc);
      GroupsAreUnique(header, g, g');
    }
  }

  // ---------- reading ----------

  /** Names of the groups of the pattern: the whole match and the optional part have none. */
  const SUBEXP_NAMES: seq<string> := ["", "trace_id", "span_id", "", "trace_flags"]

  method NamedGroups(submatches: seq<string>) returns (traceID: string, spanID: string, traceFlags: string)
    requires |submatches| == |SUBEXP_NAMES|
    ensures traceID == submatches[1] && spanID == submatches[2] && traceFlags == submatches[4]
  {
    traceID, spanID, traceFlags := "", "", "";
    for i := 0 to |SUBEXP_NAMES|
      invariant i > 1 ==> traceID == submatches[1]
      invariant i > 2 ==> spanID == submatches[2]
      invariant i > 4 ==> traceFlags == submatches[4]
    {
      var name := SUBEXP_NAMES[i];
      if name == "trace_id" {
        traceID := submatches[i];
      } else if name == "span_id" {
        spanID := submatches[i];
      } else if name == "trace_flags" {
        traceFlags := submatches[i];
      }
    }
  }

  method SpanContextFromHeader(header: string) returns (sc: Option<SpanContext>)
    ensures sc.Some? <==> Accepted(header)
    ensures sc.Some? ==> Extracts(header, sc.value)
  {
    var found := FindSubmatch(header);
    if found.None? {
      forall g | Fits(header, g) ensures false {
        MatchIsComplete(header, g);
      }
      return None;
    }
    ghost var g := found.value;
    MatchIsSound(header);
    var optional := if found.value.flags == "" then "" else ";o=" + found.value.flags;
    var traceID, spanID, traceFlags := NamedGroups(
      [header, found.value.traceID, found.value.spanID, optional, found.value.flags]);
    if traceID == RepeatZero(32) || spanID == "0" || DecimalValue(spanID) >= TWO_64 {
      forall g' | Fits(header, g') ensures !UsableGroups(g') {
        GroupsAreUnique(header, g, g');
      }
      return None;
    }
    var tid := DecodeHex(traceID);
    EncodeAfterDecode(traceID);
    var buf := PutUint64(DecimalValue(spanID));
    var tf: Byte := 1;
    if traceFlags == "0" || traceFlags == "" {
      tf := 0;
    }
    sc := Some(SpanContext(tid, buf[..], tf, true));
    assert Fits(header, g) && UsableGroups(g) && Denotes(g, sc.value);
  }

  // ---------- writing ----------

  /** The flags byte is printed in hexadecimal and read back in decimal; if that fails
      nothing is injected. */
  function InjectedGroups(sc: SpanContext): Option<Groups> {
    var flagText := EncodeHex([sc.flags]);
    if !AllDigits(flagText) then None
    else Some(Groups(EncodeHex(sc.traceID), Decimal(BigEndian(sc.spanID)), Decimal(DecimalValue(flagText))))
  }

  class Carrier {
    var headers: map<string, string>

    constructor ()
      ensures headers == map[]
    {
      headers := map[];
    }

    method Set(name: string, value: string)
      modifies this
      ensures headers == old(headers)[name := value]
    {
      headers := headers[name := value];
    }

    /** A missing header reads as the empty string. */
    function Get(name: string): string
      reads this
    {
      if name in headers then headers[name] else ""
    }
  }

  method Inject(sc: SpanContext, carrier: Carrier)
    modifies carrier
    ensures match InjectedGroups(sc)
            case None => carrier.headers == old(carrier.headers)
            case Some(g) => carrier.headers == old(carrier.headers)["x-cloud-trace-context" := Text(g)]
  {
    var groups := InjectedGroups(sc);
    if groups.None? {
      return;
    }
    carrier.Set(HEADER_NAME, Text(groups.value));
  }

  /** The context keeps what it has unless the header is accepted. */
  method Extract(current: Option<SpanContext>, carrier: Carrier) returns (sc: Option<SpanContext>)
    ensures if Accepted(carrier.Get("x-cloud-trace-context"))
            then sc.Some? && Extracts(carrier.Get("x-cloud-trace-context"), sc.value)
            else sc == current
  {
    var header := carrier.Get(HEADER_NAME);
    if header == "" {
      return current;
    }
    sc := SpanContextFromHeader(header);
    if sc.None? {
      sc := current;
    }
  }

  // ---------- round trips ----------

  lemma ZeroTraceText(traceID: Bytes)
    requires |traceID| == 16
    ensures EncodeHex(traceID) == RepeatZero(32) <==> traceID == ZeroBytes(16)
  {
    ZeroText(16);
    if EncodeHex(traceID) == RepeatZero(32) {
      DecodeAfterEncode(traceID);
      DecodeAfterEncode(ZeroBytes(16));
    }
  }

  lemma {:induction false} ZeroText(n: nat)
    ensures EncodeHex(ZeroBytes(n)) == RepeatZero(2 * n)
  {
    if n > 0 {
      ZeroText(n - 1);
      assert ZeroBytes(n)[1..] == ZeroBytes(n - 1);
      assert RepeatZero(2 * n) == "0" + ("0" + RepeatZero(2 * (n - 1)));
    }
  }

  lemma FlagText(flags: Byte)
    ensures AllDigits(EncodeHex([flags])) <==> flags / 16 < 10 && flags % 16 < 10
    ensures AllDigits(EncodeHex([flags])) ==> DecimalValue(EncodeHex([flags])) == 10 * (flags / 16) + flags % 16
  {
    var s := EncodeHex([flags]);
    assert s == [HexDigit(flags / 16), HexDigit(flags % 16)];
    assert AllDigits(s) <==> IsDigit(s[0]) && IsDigit(s[1]);
    if AllDigits(s) {
      assert s[..1] == [s[0]] && s[..1][..0] == "";
      assert DecimalValue(s[..1]) == HexValue(s[0]);
    }
  }

  /** What Inject writes fits the grammar exactly when the flags are below 10. */
  lemma InjectedFits(sc: SpanContext)
    requires Sized(sc) && sc.flags < 10
    ensures InjectedGroups(sc).Some?
    ensures Fits(Text(InjectedGroups(sc).value), InjectedGroups(sc).value)
    ensures InjectedGroups(sc).value.flags == [HexDigit(sc.flags)]
    ensures DecimalValue(InjectedGroups(sc).value.spanID) == BigEndian(sc.spanID) < TWO_64
  {
    FlagText(sc.flags);
    Uint64Bound(sc.spanID);
    DecimalOfUint64(BigEndian(sc.spanID));
    ValueOfDecimal(BigEndian(sc.spanID));
  }

  lemma RoundTrip(sc: SpanContext)
    requires Sized(sc) && sc.traceID != ZeroBytes(16) && BigEndian(sc.spanID) != 0 && sc.flags <= 1
    ensures InjectedGroups(sc).Some? && Extracts(Text(InjectedGroups(sc).value), sc.(remote := true))
  {
    ZeroTraceText(sc.traceID);
    DecimalIsZero(BigEndian(sc.spanID));
    InjectedFits(sc);
    var g := InjectedGroups(sc).value;
    assert Fits(Text(g), g) && UsableGroups(g) && Denotes(g, sc.(remote := true));
  }

  lemma NothingElseReturns(sc: SpanContext)
    requires Sized(sc) && InjectedGroups(sc).Some? && Extracts(Text(InjectedGroups(sc).value), sc.(remote := true))
    ensures sc.traceID != ZeroBytes(16) && BigEndian(sc.spanID) != 0 && sc.flags <= 1
  {
    var g := InjectedGroups(sc).value;
    var g' :| Fits(Text(g), g') && UsableGroups(g') && Denotes(g', sc.(remote := true));
    assert sc.flags <= 1;
    InjectedFits(sc);
    GroupsAreUnique(Text(g), g, g');
    ZeroTraceText(sc.traceID);
    DecimalIsZero(BigEndian(sc.spanID));
  }

  /** Extracting the injected header gives the same context back, marked remote, exactly
      for a nonzero trace ID, a nonzero span ID and flags 0 or 1. */
  lemma RoundTripIff(sc: SpanContext)
    requires Sized(sc)
    ensures (InjectedGroups(sc).Some? && Extracts(Text(InjectedGroups(sc).value), sc.(remote := true)))
       <==> sc.traceID != ZeroBytes(16) && BigEndian(sc.spanID) != 0 && sc.flags <= 1
  {
    if InjectedGroups(sc).Some? && Extracts(Text(InjectedGroups(sc).value), sc.(remote := true)) {
      NothingElseReturns(sc);
    } else if sc.traceID != ZeroBytes(16) && BigEndian(sc.spanID) != 0 && sc.flags <= 1 {
      RoundTrip(sc);
    }
  }

  /** A context sent from one process to another. */
  method Propagate(sc: SpanContext) returns (received: Option<SpanContext>)
    requires Sized(sc)
    ensures received == Some(sc.(remote := true))
       <==> sc.traceID != ZeroBytes(16) && BigEndian(sc.spanID) != 0 && sc.flags <= 1
  {
    var carrier := new Carrier();
    Inject(sc, carrier);
    received := Extract(None, carrier);
    RoundTripIff(sc);
    var header := carrier.Get(HEADER_NAME);
    if Extracts(header, sc.(remote := true)) {
      var g :| Fits(header, g) && UsableGroups(g) && Denotes(g, sc.(remote := true));
      assert Accepted(header);
      ExtractedIsUnique(header, received.value, sc.(remote := true));
    }
    NoEmptyHeader();
  }

  lemma NoEmptyHeader()
    ensures !Accepted("")
  {
    forall g ensures !Fits("", g) {
      assert |Text(g)| > 0;
    }
  }

  /** An accepted header with a nonzero span number is re-injected as a header that
      extracts to the same context; it is the same header exactly when the span number
      was written without leading zeros and the flags were written as 0 or 1. With span
      number zero (as in "00") the re-injected header is not accepted. */
  lemma Reinjection(header: string, g: Groups, sc: SpanContext)
    requires Fits(header, g) && UsableGroups(g) && Denotes(g, sc)
    ensures InjectedGroups(sc).Some?
    ensures Extracts(Text(InjectedGroups(sc).value), sc) <==> DecimalValue(g.spanID) != 0
    ensures Text(InjectedGroups(sc).value) == header
       <==> g.spanID == Decimal(DecimalValue(g.spanID)) && (g.flags == "0" || g.flags == "1")
  {
    ZeroTraceText(sc.traceID);
    RoundTripIff(sc);
    InjectedFits(sc);
    assert sc.(remote := true) == sc;
    var g' := InjectedGroups(sc).value;
    assert g'.flags == "0" || g'.flags == "1";
    if Text(g') == header {
      GroupsAreUnique(header, g, g');
    }
  }

  // ---------- what is written ----------

  /** Nothing is written if the flags have a hexadecimal letter; otherwise their two digits
      are read as a decimal number. */
  lemma InjectedIs(sc: SpanContext)
    ensures InjectedGroups(sc).Some? <==> sc.flags / 16 < 10 && sc.flags % 16 < 10
    ensures InjectedGroups(sc).Some? ==>
      Text(InjectedGroups(sc).value)
      == EncodeHex(sc.traceID) + "/" + Decimal(BigEndian(sc.spanID)) + ";o=" + Decimal(10 * (sc.flags / 16) + sc.flags % 16)
  {
    FlagText(sc.flags);
  }

  // ---------- headers and contexts that do not survive ----------

  lemma {:induction false} ZeroSpan(n: nat)
    ensures BigEndian(ZeroBytes(n)) == 0
  {
    if n > 0 {
      ZeroSpan(n - 1);
      ZeroBytesEnd(n);
    }
  }

  lemma {:induction false} ZeroBytesEnd(n: nat)
    requires n > 0
    ensures ZeroBytes(n) == ZeroBytes(n - 1) + [0]
  {
    if n > 1 {
      ZeroBytesEnd(n - 1);
    }
  }

  /** Span number "0" is refused, but "00" is accepted as span ID zero, and injecting what
      it means writes the header that is refused. */
  lemma ZeroSpanIsAccepted(traceID: string, sc: SpanContext)
    requires |traceID| == 32 && AllHexDigits(traceID) && traceID != RepeatZero(32)
    requires sc == SpanContext(DecodeHex(traceID), ZeroBytes(8), 1, true)
    ensures Extracts(traceID + "/00;o=1", sc)
    ensures InjectedGroups(sc) == Some(Groups(traceID, "0", "1")) && !Accepted(Text(Groups(traceID, "0", "1")))
  {
    ZeroSpan(8);
    EncodeAfterDecode(traceID);
    ZeroSpanIsRead(traceID, sc);
    InjectedFits(sc);
    ZeroSpanIsRefused(traceID);
  }

  lemma ZeroSpanIsRead(traceID: string, sc: SpanContext)
    requires |traceID| == 32 && AllHexDigits(traceID) && traceID != RepeatZero(32)
    requires Sized(sc) && sc.remote && sc.flags == 1 && EncodeHex(sc.traceID) == traceID && BigEndian(sc.spanID) == 0
    ensures Extracts(traceID + "/00;o=1", sc)
  {
    var g := Groups(traceID, "00", "1");
    assert "00"[..1] == "0" && "0"[..0] == "" && DecimalValue("0") == 0;
    assert Fits(Text(g), g) && UsableGroups(g) && Denotes(g, sc);
  }

  lemma ZeroSpanIsRefused(traceID: string)
    requires |traceID| == 32 && AllHexDigits(traceID)
    ensures !Accepted(Text(Groups(traceID, "0", "1")))
  {
    var g := Groups(traceID, "0", "1");
    forall h | Fits(Text(g), h) ensures !UsableGroups(h) {
      GroupsAreUnique(Text(g), g, h);
    }
  }

  /** Flags above 1 are written as they are and read back as 1. */
  lemma HigherFlagsBecomeOne(sc: SpanContext)
    requires Sized(sc) && sc.traceID != ZeroBytes(16) && BigEndian(sc.spanID) != 0 && 2 <= sc.flags < 10
    ensures InjectedGroups(sc).Some?
    ensures Extracts(Text(InjectedGroups(sc).value), sc.(flags := 1, remote := true))
  {
    ZeroTraceText(sc.traceID);
    DecimalIsZero(BigEndian(sc.spanID));
    InjectedFits(sc);
    var g := InjectedGroups(sc).value;
    assert Fits(Text(g), g) && UsableGroups(g) && Denotes(g, sc.(flags := 1, remote := true));
  }
}
