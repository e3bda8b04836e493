/**
 * What the printed forms are in the characters of the standards they follow: the escapes of RFC 8785, the timestamps
 * of RFC 3339, the alphabets and vectors of RFC 4648, the vectors of RFC 3629, and the texts and bounds that the
 * program fixes for itself.
 */
module Standards {
  import opened Octets
  import opened Utf16
  import opened World
  import opened Decimal
  import opened Json
  import opened KeySort
  import opened Canonical
  import opened Timestamps
  import opened Rfc8259
  import opened StableVersions
  import opened Stringify
  import opened Spelling
  import opened AuditEvents
  import HashChain
  import SortedJson
  import DerValues
  import CanonicalText
  import Utf8
  import Base64
  import Dsse

  /** The characters of a text as numbers. */
  function Chars(w: string): (r: seq<CodePoint>)
    ensures |r| == |w| && forall i :: 0 <= i < |w| ==> r[i] == w[i] as int
  {
    seq(|w|, i requires 0 <= i < |w| => w[i] as int)
  }

  // ----- RFC 8785, section 3.2.2.2 -----

  /**
   * Seven characters have an escape of two characters, any other control character has its number in four lower-case
   * hexadecimal digits, and any other character but a lone surrogate stands for itself.
   */
  lemma EscapedAsRfc8785(c: CodePoint)
    ensures c == 0x08 ==> Escape(c) == Chars("\\b")
    ensures c == 0x09 ==> Escape(c) == Chars("\\t")
    ensures c == 0x0A ==> Escape(c) == Chars("\\n")
    ensures c == 0x0C ==> Escape(c) == Chars("\\f")
    ensures c == 0x0D ==> Escape(c) == Chars("\\r")
    ensures c == 0x22 ==> Escape(c) == Chars("\\\"")
    ensures c == 0x5C ==> Escape(c) == Chars("\\\\")
    ensures c < 0x20 && !(0x08 <= c <= 0x0A) && !(0x0C <= c <= 0x0D) ==>
      Escape(c) == Chars("\\u00") + Chars([if c < 0x10 then '0' else '1', "0123456789abcdef"[c % 0x10]])
    ensures c >= 0x20 && c != 0x22 && c != 0x5C && !(0xD800 <= c <= 0xDFFF) ==> Escape(c) == [c]
  {
    if c < 0x20 {
      HexLetter(c % 0x10);
      HexLetter(c / 0x10);
    }
  }

  lemma HexLetter(d: int)
    requires 0 <= d < 0x10
    ensures HexDigit(d) == "0123456789abcdef"[d] as int
  {
  }

  // ----- RFC 8785, section 3.2.1: nothing between the tokens -----

  lemma ArrayText()
    ensures Print(TArr([TInt(1), TInt(2)])) == Chars("[1,2]")
    ensures Print(TArr([TBool(true), TBool(false)])) == Chars("[true,false]")
  {
    ItemsText([TInt(1), TInt(2)], Chars("1"), Chars("2"));
    ItemsText([TBool(true), TBool(false)], Chars("true"), Chars("false"));
  }

  lemma ItemsText(items: seq<Tree>, first: seq<CodePoint>, second: seq<CodePoint>)
    requires |items| == 2 && Print(items[0]) == first && Print(items[1]) == second
    ensures Print(TArr(items)) == Chars("[") + first + Chars(",") + second + Chars("]")
  {
    assert PrintItems(items, 2) == [];
    assert PrintItems(items, 1) == [COMMA] + second + [];
    assert PrintItems(items, 0) == [] + first + PrintItems(items, 1);
  }

  lemma ObjectText(k: CodeUnit, l: CodeUnit)
    requires 0x61 <= k <= 0x7A && 0x61 <= l <= 0x7A
    ensures Print(TObj([Entry([k], TNull), Entry([l], TNull)])) ==
      Chars("{\"") + [k] + Chars("\":null,\"") + [l] + Chars("\":null}")
  {
    var entries := [Entry([k], TNull), Entry([l], TNull)];
    NullEntry(k);
    NullEntry(l);
    assert PrintEntries(entries, 2) == [];
    assert PrintEntries(entries, 1) == Chars(",\"") + [l] + Chars("\":null");
    assert PrintEntries(entries, 0) == Chars("\"") + [k] + Chars("\":null,\"") + [l] + Chars("\":null");
  }

  lemma NullEntry(c: CodeUnit)
    requires 0x61 <= c <= 0x7A
    ensures PrintEntry(Entry([c], TNull)) == Chars("\"") + [c] + Chars("\":null")
  {
    assert CodePoints([c]) == [c];
    assert EscapeAll([c]) == [c];
  }

  // ----- RFC 3339, section 5.6 -----

  lemma {:induction false} FixedIsDecimal(n: nat, k: nat)
    requires n < Power10(k)
    ensures AllDecimal(Fixed(n, k)) && DecimalValue(Fixed(n, k)) == n
  {
    if k > 0 {
      FixedIsDecimal(n / 10, k - 1);
      assert Fixed(n, k)[..k - 1] == Fixed(n / 10, k - 1);
      assert Fixed(n, k)[k - 1] == '0' as int + n % 10;
    }
  }

  /** The text from one position to another is the decimal number n. */
  predicate Reads(text: seq<CodePoint>, from: nat, to: nat, n: int)
    requires from <= to <= |text|
  {
    AllDecimal(text[from..to]) && DecimalValue(text[from..to]) == n
  }

  /** YYYY-MM-DDThh:mm:ss.ffffffZ with the Date's own fields, in the years that have four digits. */
  lemma StampAsRfc3339(d: Moment)
    requires 0 <= d.year <= 9999
    ensures var t := ChainTimestamp(d);
      && |t| == 27
      && t[4] == '-' as int && t[7] == '-' as int && t[10] == 'T' as int
      && t[13] == ':' as int && t[16] == ':' as int && t[19] == '.' as int && t[26] == 'Z' as int
      && Reads(t, 0, 4, d.year) && Reads(t, 5, 7, d.month) && Reads(t, 8, 10, d.day)
      && Reads(t, 11, 13, d.hour) && Reads(t, 14, 16, d.minute) && Reads(t, 17, 19, d.second)
      && Reads(t, 20, 26, 1000 * d.milli)
    ensures BundleTimestamp(d) == ChainTimestamp(d)
  {
    PowersOf10();
    StampSlices(d);
    PrintersAgreeExactly(d);
    DaysFit(d);
    FixedIsDecimal(d.year, 4);
    FixedIsDecimal(d.month, 2);
    FixedIsDecimal(d.day, 2);
    FixedIsDecimal(d.hour, 2);
    FixedIsDecimal(d.minute, 2);
    FixedIsDecimal(d.second, 2);
    FixedIsDecimal(d.milli, 3);
    Thousandfold(Fixed(d.milli, 3));
  }

  lemma StampSlices(d: Moment)
    requires 0 <= d.year <= 9999
    ensures var t := ChainTimestamp(d);
      && |t| == 27
      && t[4] == '-' as int && t[7] == '-' as int && t[10] == 'T' as int
      && t[13] == ':' as int && t[16] == ':' as int && t[19] == '.' as int && t[26] == 'Z' as int
      && t[0..4] == Fixed(d.year, 4) && t[5..7] == Fixed(d.month, 2) && t[8..10] == Fixed(d.day, 2)
      && t[11..13] == Fixed(d.hour, 2) && t[14..16] == Fixed(d.minute, 2) && t[17..19] == Fixed(d.second, 2)
      && t[20..26] == Fixed(d.milli, 3) + Chars("000")
  {
    PowersOf10();
    TextLayout(d);
    PaddedIsFixed(d.year, 4);
    var clock := ClockSlices(Fixed(d.hour, 2), Fixed(d.minute, 2), Fixed(d.second, 2), Fixed(d.milli, 3));
    Slices(Fixed(d.year, 4), Fixed(d.month, 2), Fixed(d.day, 2), clock);
    var t := ChainTimestamp(d);
    assert t[11..13] == clock[0..2] && t[14..16] == clock[3..5] && t[17..19] == clock[6..8];
    assert t[20..26] == clock[9..15] && t[13] == clock[2] && t[16] == clock[5] && t[19] == clock[8];
  }

  lemma DaysFit(d: Moment)
    ensures d.month < 100 && d.day < 100
  {
  }

  lemma Thousandfold(s: seq<CodePoint>)
    requires AllDecimal(s)
    ensures AllDecimal(s + Chars("000")) && DecimalValue(s + Chars("000")) == 1000 * DecimalValue(s)
  {
    var s1, s2, s3 := s + Chars("0"), s + Chars("00"), s + Chars("000");
    assert s1[..|s1| - 1] == s && DecimalValue(s1) == 10 * DecimalValue(s);
    assert s2[..|s2| - 1] == s1 && DecimalValue(s2) == 10 * DecimalValue(s1);
    assert s3[..|s3| - 1] == s2 && DecimalValue(s3) == 10 * DecimalValue(s2);
  }

  lemma ClockSlices(h: JsString, mi: JsString, s: JsString, ms: JsString) returns (t: JsString)
    requires |h| == |mi| == |s| == 2 && |ms| == 3
    ensures t == h + ([Timestamps.COLON] + (mi + ([Timestamps.COLON] + (s + ([DOT]
                 + (ms + [ZERO, ZERO, ZERO, LETTER_Z]))))))
    ensures |t| == 16 && t[2] == ':' as int && t[5] == ':' as int && t[8] == '.' as int && t[15] == 'Z' as int
    ensures t[0..2] == h && t[3..5] == mi && t[6..8] == s && t[9..15] == ms + Chars("000")
  {
    var fraction := ms + [ZERO, ZERO, ZERO, LETTER_Z];
    assert fraction[0..6] == ms + Chars("000") && fraction[6] == 'Z' as int;
    var seconds := s + ([DOT] + fraction);
    assert seconds[0..2] == s && seconds[2] == '.' as int && seconds[3..] == fraction;
    var minutes := mi + ([Timestamps.COLON] + seconds);
    assert minutes[0..2] == mi && minutes[2] == ':' as int && minutes[3..] == seconds;
    t := h + ([Timestamps.COLON] + minutes);
    assert t[0..2] == h && t[2] == ':' as int && t[3..] == minutes;
    assert t[3..5] == minutes[0..2] && t[6..8] == seconds[0..2] && t[9..15] == fraction[0..6];
  }

  lemma Slices(y: JsString, mo: JsString, day: JsString, clock: JsString)
    requires |y| == 4 && |mo| == |day| == 2 && |clock| == 16
    ensures var t := y + ([DASH] + (mo + ([DASH] + (day + ([LETTER_T] + clock)))));
      && |t| == 27 && t[4] == '-' as int && t[7] == '-' as int && t[10] == 'T' as int
      && t[0..4] == y && t[5..7] == mo && t[8..10] == day && t[11..] == clock
  {
    var days := day + ([LETTER_T] + clock);
    assert days[0..2] == day && days[2] == 'T' as int && days[3..] == clock;
    var months := mo + ([DASH] + days);
    assert months[0..2] == mo && months[2] == '-' as int && months[3..] == days;
    var t := y + ([DASH] + months);
    assert t[0..4] == y && t[4] == '-' as int && t[5..] == months;
    assert t[5..7] == months[0..2] && t[8..10] == days[0..2] && t[11..] == days[3..];
  }

  /** Other years: a sign and six digits where the bundle prints them, as ECMAScript does. */
  lemma ExpandedYear(y: int)
    requires (9999 < y || y < 0) && -1_000_000 < y < 1_000_000
    ensures |IsoYear(y)| == 7 && IsoYear(y)[0] == (if y < 0 then '-' as int else '+' as int)
    ensures Reads(IsoYear(y), 1, 7, if y < 0 then -y else y)
  {
    PowersOf10();
    IsoYearForm(y);
    FixedIsDecimal(if y < 0 then -y else y, 6);
    assert IsoYear(y)[1..7] == Fixed(if y < 0 then -y else y, 6);
  }

  /** The epoch, and the last millisecond of a leap day and the first one after it. */
  lemma EpochVectors(d: Moment)
    ensures d == DateTime(1970, 1, 1, 0, 0, 0, 0) ==> EpochMillis(d) == 0
    ensures d == DateTime(2000, 2, 29, 23, 59, 59, 999) ==> EpochMillis(d) == 951_868_799_999
    ensures d == DateTime(2000, 3, 1, 0, 0, 0, 0) ==> EpochMillis(d) == 951_868_800_000
  {
    FirstOfMonth(2000, 3);
    assert DaysBeforeMonth(2000, 2) == 31;
    MillisFrom(d, DayFromYear(d.year) + DaysBeforeMonth(d.year, d.month));
  }

  /** The first and the last moment a Date can hold. */
  lemma EndsOfTime(d: Moment)
    ensures d == DateTime(275760, 9, 13, 0, 0, 0, 0) ==> EpochMillis(d) == 8_640_000_000_000_000
    ensures d == DateTime(-271821, 4, 20, 0, 0, 0, 0) ==> EpochMillis(d) == -8_640_000_000_000_000
  {
    FirstOfMonth(275760, 9);
    FirstOfMonth(-271821, 4);
    MillisFrom(d, DayFromYear(d.year) + DaysBeforeMonth(d.year, d.month));
  }

  /** From the number of the month's first day. */
  lemma MillisFrom(d: Moment, days: int)
    requires DayFromYear(d.year) + DaysBeforeMonth(d.year, d.month) == days
    ensures EpochMillis(d) ==
      (days + d.day - 1) * 86_400_000 + d.hour * 3_600_000 + d.minute * 60_000 + d.second * 1000 + d.milli
  {
  }

  lemma FirstOfMonth(y: int, m: int)
    requires m == 3 || m == 4 || m == 9
    ensures DaysBeforeMonth(y, m) ==
      if m == 3 then 59 + LeapDay(y) else if m == 4 then 90 + LeapDay(y) else 243 + LeapDay(y)
  {
    assert DaysBeforeMonth(y, 3) == DaysBeforeMonth(y, 2) + DaysInMonth(y, 2);
    assert DaysBeforeMonth(y, 4) == DaysBeforeMonth(y, 3) + 31;
    assert DaysBeforeMonth(y, 6) == DaysBeforeMonth(y, 5) + 31 == DaysBeforeMonth(y, 4) + 61;
    assert DaysBeforeMonth(y, 8) == DaysBeforeMonth(y, 7) + 31 == DaysBeforeMonth(y, 6) + 61;
    assert DaysBeforeMonth(y, 9) == DaysBeforeMonth(y, 8) + 31;
  }

  function LeapDay(y: int): int {
    if y % 4 == 0 && (y % 100 != 0 || y % 400 == 0) then 1 else 0
  }

  // ----- RFC 4648, sections 4, 5 and 10 -----

  /** Tables 1 and 2: the two alphabets differ in their last two letters. */
  lemma AlphabetsOfRfc4648(v: Base64.Sextet)
    ensures v < 26 ==> Base64.Letter(v) == 'A' as int + v
    ensures 26 <= v < 52 ==> Base64.Letter(v) == 'a' as int + v - 26
    ensures 52 <= v < 62 ==> Base64.Letter(v) == '0' as int + v - 52
    ensures Base64.Letter(62) == '+' as int && Base64.Letter(63) == '/' as int
    ensures Base64.UrlLetter(Base64.Letter(62)) == '-' as int && Base64.UrlLetter(Base64.Letter(63)) == '_' as int
    ensures v < 62 ==> Base64.UrlLetter(Base64.Letter(v)) == Base64.Letter(v)
  {
  }

  /** The octets of "f", "fo" and "foo". */
  lemma VectorsOfRfc4648()
    ensures Base64.Encode([0x66]) == Chars("Zg==")
    ensures Base64.Encode([0x66, 0x6F]) == Chars("Zm8=")
    ensures Base64.Encode([0x66, 0x6F, 0x6F]) == Chars("Zm9v")
  {
    LettersOf([0x66], [25, 32]);
    LettersOf([0x66, 0x6F], [25, 38, 60]);
    LettersOf([0x66, 0x6F, 0x6F], [25, 38, 61, 47]);
  }

  lemma LettersOf(octets: seq<Byte>, sextets: seq<Base64.Sextet>)
    requires Base64.Sextets(octets) == sextets
    ensures Base64.Encode(octets) == Base64.Letters(sextets) + Base64.Pads((3 - |octets| % 3) % 3)
  {
  }

  // ----- RFC 3629, section 7 -----

  lemma VectorsOfRfc3629()
    ensures forall c: CodePoint :: c < 0x80 ==> Utf8.EncodeOne(c) == [c]
    ensures Utf8.Encode([0x41, 0x2262, 0x0391, 0x2E]) == [0x41, 0xE2, 0x89, 0xA2, 0xCE, 0x91, 0x2E]
    ensures Utf8.Encode([0xFEFF, 0x233B4]) == [0xEF, 0xBB, 0xBF, 0xF0, 0xA3, 0x8E, 0xB4]
  {
  }

  // ----- RFC 2781, section 2 -----

  lemma VectorOfRfc2781()
    ensures CodePoints([0xD808, 0xDF45]) == [0x12345] && UnitsOf(0x12345) == [0xD808, 0xDF45]
  {
  }

  // ----- X.690, sections 8.3 and 8.19 -----

  /** The identifier of RSA's arc, 1.2.840.113549, and an integer of two octets. */
  lemma VectorsOfX690()
    ensures DerValues.OidArcs([0x2A, 0x86, 0x48, 0x86, 0xF7, 0x0D]) == [1, 2, 840, 113549]
    ensures DerValues.Signed([0xFF, 0x7F]) == -129 && DerValues.Signed([0x00, 0x80]) == 128
  {
    var all: seq<Byte> := [0x86, 0x48, 0x86, 0xF7, 0x0D];
    assert DerValues.TakeArc([0x0D], 6 * 128 + 0x77) == DerValues.Arc(113549, []);
    assert all[2..][1..] == [0xF7, 0x0D] && all[2..][1..][1..] == [0x0D];
    assert DerValues.TakeArc(all[2..], 0) == DerValues.TakeArc([0xF7, 0x0D], 6)
        == DerValues.TakeArc([0x0D], 6 * 128 + 0x77);
    assert all[1..] == [0x48, 0x86, 0xF7, 0x0D] && all[1..][1..] == all[2..];
    assert DerValues.TakeArc(all, 0) == DerValues.TakeArc(all[1..], 6) == DerValues.Arc(840, all[2..]);
    assert DerValues.Arcs(all[2..]) == [113549] + DerValues.Arcs([]);
    assert DerValues.Arcs(all) == [840] + DerValues.Arcs(all[2..]);
    assert [0xFF, 0x7F][..1] == [0xFF] && [0x00, 0x80][..1] == [0x00];
    assert BigEndian([0xFF]) == 0xFF && BigEndian([0x00]) == 0;
    assert Pow256(2) == 0x100 * Pow256(1) == 0x1_0000;
  }

  // ----- ECMAScript, section 6.1.7: array indices -----

  lemma ArrayIndexExactly(key: JsString, n: nat)
    ensures SortedJson.ArrayIndex(key) == Some(n) <==> key == Show(n) && n < 4_294_967_295
  {
    TakeDigitsOfDigits(n, []);
    assert Digits(n) + [] == Digits(n);
  }

  // ----- The DSSE protocol: envelopes -----

  /** A letter of the standard alphabet. */
  predicate IsLetter(c: CodePoint) {
    || 'A' as int <= c <= 'Z' as int || 'a' as int <= c <= 'z' as int || '0' as int <= c <= '9' as int
    || c == '+' as int || c == '/' as int
  }

  /** That many letters and then only padding. */
  predicate LettersThenPadding(t: JsString, n: nat)
    requires n <= |t|
  {
    (forall i :: 0 <= i < n ==> IsLetter(t[i])) && forall i :: n <= i < |t| ==> t[i] == '=' as int
  }

  lemma {:induction false} PaddingIsDropped(t: JsString, n: nat)
    requires n <= |t| && LettersThenPadding(t, n)
    ensures Base64.DropPadding(t) == t[..n]
  {
    if n < |t| {
      PaddingIsDropped(t[..|t| - 1], n);
    } else {
      assert t[..n] == t;
      assert t != [] ==> IsLetter(t[|t| - 1]);
    }
  }

  lemma {:induction false} DroppedIsPadding(t: JsString)
    ensures Base64.DropPadding(t) <= t
    ensures forall i :: |Base64.DropPadding(t)| <= i < |t| ==> t[i] == '=' as int
  {
    if t != [] && t[|t| - 1] == Base64.PAD {
      DroppedIsPadding(t[..|t| - 1]);
    }
  }

  /** The test of a payload is the regular expression of the source, letters and at most two pads, and the length. */
  lemma PaddedTextExactly(t: JsString)
    ensures Base64.IsPaddedText(t) <==>
      |t| % 4 == 0 && exists n :: |t| - 2 <= n <= |t| && 0 <= n && LettersThenPadding(t, n)
  {
    if Base64.IsPaddedText(t) {
      DroppedIsPadding(t);
      var letters := Base64.DropPadding(t);
      assert forall i :: 0 <= i < |letters| ==> letters[i] in letters && t[i] == letters[i];
      assert LettersThenPadding(t, |letters|);
    }
    if n: nat :| |t| - 2 <= n <= |t| && LettersThenPadding(t, n) {
      PaddingIsDropped(t, n);
    }
  }

  /**
   * An envelope opens exactly if it is there, its payload type is the text above, and its payload is padded base 64 of
   * the bytes of an object; else the first of these tests it fails is reported.
   */
  lemma OpenedExactly(envelope: Option<Dsse.Envelope>, parse: Dsse.Parser)
    ensures var r := Dsse.EnvelopeToStatement(envelope, parse);
      var typed := envelope.Some? && envelope.value.payloadType == Str(FromText("application/vnd.in-toto+json"));
      var texted := typed && envelope.value.payload.Str?;
      var coded := texted && Base64.IsPaddedText(envelope.value.payload.s);
      var parsed := coded && parse(Base64.Decode(envelope.value.payload.s)).Some?;
      && (r.Statement? <==> parsed && parse(Base64.Decode(envelope.value.payload.s)).value.DObj?)
      && (r.Statement? ==> parse(Base64.Decode(envelope.value.payload.s)) == Some(r.data))
      && (r == Dsse.Refused(Dsse.NotAnObject) <==> envelope.None?)
      && (r == Dsse.Refused(Dsse.WrongPayloadType) <==> envelope.Some? && !typed)
      && (r == Dsse.Refused(Dsse.PayloadNotText) <==> typed && !texted)
      && (r == Dsse.Refused(Dsse.PayloadNotBase64) <==> texted && !coded)
      && (r == Dsse.Refused(Dsse.PayloadNotJson) <==> coded && !parsed)
      && (r == Dsse.Refused(Dsse.PayloadNotObject) <==> parsed && r.Refused?)
  {
  }

  /** An envelope holds the bytes of its statement in base 64, and the signatures it was given. */
  lemma EnvelopeHolds(statement: Js, signatures: Js, bytes: seq<Byte>)
    requires JsonBytes(statement) == Some(bytes)
    ensures Dsse.StatementToEnvelope(statement, signatures) ==
      Some(Dsse.Envelope(Str(FromText("application/vnd.in-toto+json")), Str(Base64.Encode(bytes)), signatures))
    ensures Base64.Decode(Base64.Encode(bytes)) == bytes
  {
    Base64.DecodeEncode(bytes);
  }

  // ----- The text of an envelope's payload -----

  /**
   * The bytes of `canonicalJsonBytes` are JSON text exactly if the numbers kept are written as JSON writes them, which
   * a platform's numbers are; and then any reader of JSON finds in them what is kept of the value.
   */
  lemma PayloadIsJsonExactly(v: Js)
    requires PlainObjects(v) && JsonBytes(v).Some?
    ensures ReadBytes(JsonBytes(v).value) == if NumbersAreJson(Kept(v)) then Some(Kept(v)) else None
  {
    JsonBytesReadBack(v);
    BytesAgree(JsonBytes(v).value);
  }

  /**
   * The hash of an event is that of bytes in which any reader of JSON finds the event: SHA-256 is applied once, to the
   * canonical bytes and nothing else.
   */
  lemma HashedBytesAreJson(env: HashChain.Env, e: AuditEvent)
    requires HashChain.HashEvent(env, e).Some? && PlainEvent(e)
    ensures exists bytes ::
      HashChain.HashEvent(env, e) == Some(env.sha(bytes)) && ReadBytes(bytes) == Some(Value(EventJs(e)))
  {
    var v := EventJs(e);
    EventIsPlain(e, env.nfc);
    PlainIsGenuine(v);
    CanonicalIsJsonExactly(v, env.nfc);
    SpelledIsSameExactly(v);
    var bytes := CanonicalBytes(v, env.nfc).value;
    assert ReadBytes(bytes) == Some(Value(v));
  }

  lemma {:induction false} PlainIsGenuine(v: Js)
    requires Plain(v)
    ensures Genuine(v) && NoLeadingZeros(v) && NothingToSpell(v)
    decreases v
  {
    match v
    case Array(items) =>
      forall i | 0 <= i < |items| ensures Genuine(items[i]) && NoLeadingZeros(items[i]) && NothingToSpell(items[i]) {
        PlainIsGenuine(items[i]);
      }
    case Object(entries) =>
      forall i | 0 <= i < |entries|
        ensures Genuine(entries[i].value) && NoLeadingZeros(entries[i].value) && NothingToSpell(entries[i].value)
      {
        PlainIsGenuine(entries[i].value);
      }
    case _ =>
  }

  // ----- ECMAScript, section 22.2.2.9: the white space of `\s`, and what the normaliser strips -----

  lemma WhiteSpaceExactly(c: CodePoint)
    ensures CanonicalText.IsWhitespace(c) <==>
      c in {0x09, 0x0A, 0x0B, 0x0C, 0x0D, 0x20, 0xA0, 0x1680, 0x2000, 0x2001, 0x2002, 0x2003, 0x2004, 0x2005, 0x2006,
            0x2007, 0x2008, 0x2009, 0x200A, 0x2028, 0x2029, 0x202F, 0x205F, 0x3000, 0xFEFF}
    ensures CanonicalText.IsZeroWidth(c) <==> c in {0x200B, 0x200C, 0x200D, 0xFEFF}
  {
  }

  // ----- What the program fixes -----

  lemma PayloadTypeText()
    ensures Dsse.PayloadType() == Str(Chars("application/vnd.in-toto+json"))
  {
  }

  lemma TagText(v: Version)
    ensures Tag(v) == Chars("v") + Show(v.major) + Chars(".") + Show(v.minor) + Chars(".") + Show(v.patch)
  {
    var all := [v.major, v.minor, v.patch];
    assert all[1..] == [v.minor, v.patch] && all[1..][1..] == [v.patch];
    assert Dotted([v.patch]) == Digits(v.patch);
    assert Dotted([v.minor, v.patch]) == Digits(v.minor) + [DOT] + Digits(v.patch);
    assert Dotted(all) == Digits(v.major) + [DOT] + Dotted([v.minor, v.patch]);
    assert Tag(v) == Chars("v") + Digits(v.major) + Chars(".") + (Digits(v.minor) + Chars(".") + Digits(v.patch));
  }

  /** Integers are accepted as far as a double counts one by one. */
  lemma IntegersAccepted(n: int, nfc: NfcTest)
    ensures Accepts(Number(Whole(n)), nfc) <==> -9_007_199_254_740_991 <= n <= 9_007_199_254_740_991
    ensures InInt64(n) <==> -9_223_372_036_854_775_808 <= n <= 9_223_372_036_854_775_807
  {
  }
}
