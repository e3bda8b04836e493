/**
 * RFC 8259 as a reader, in the RFC's own characters, and what it makes of the text of a tree: the meaning of that tree,
 * exactly if the numbers in it are written as the RFC's grammar asks.
 */
module Rfc8259 {
  import opened Octets
  import opened Utf16
  import opened World
  import opened Decimal
  import opened Json
  import opened KeySort
  import opened Canonical
  import opened CanonicalProofs
  import opened Spelling
  import Utf8

  predicate Is(s: seq<CodePoint>, c: char) {
    s != [] && s[0] == c as int
  }

  predicate Begins(s: seq<CodePoint>, word: string) {
    |word| <= |s| && forall i :: 0 <= i < |word| ==> s[i] == word[i] as int
  }

  /** Section 2: the four characters of white space. */
  function AfterSpace(s: seq<CodePoint>): (r: seq<CodePoint>)
    ensures |r| <= |s|
  {
    if s != [] && (s[0] == 0x20 || s[0] == 0x09 || s[0] == 0x0A || s[0] == 0x0D) then AfterSpace(s[1..]) else s
  }

  // ----- Section 6: numbers -----

  predicate IsDecimal(c: CodePoint) {
    '0' as int <= c <= '9' as int
  }

  function AfterDigits(s: seq<CodePoint>): (r: seq<CodePoint>)
    ensures |r| <= |s|
  {
    if s != [] && IsDecimal(s[0]) then AfterDigits(s[1..]) else s
  }

  function Unsigned(text: seq<CodePoint>): seq<CodePoint> {
    if Is(text, '-') then text[1..] else text
  }

  predicate IsNumber(text: seq<CodePoint>) {
    var digits := Unsigned(text);
    && digits != [] && IsDecimal(digits[0])
    && EndsInFraction(if digits[0] == '0' as int then digits[1..] else AfterDigits(digits))
  }

  predicate EndsInFraction(s: seq<CodePoint>) {
    if Is(s, '.') then |s| > 1 && IsDecimal(s[1]) && EndsInExponent(AfterDigits(s[1..])) else EndsInExponent(s)
  }

  predicate EndsInExponent(s: seq<CodePoint>) {
    s == [] ||
    ((Is(s, 'e') || Is(s, 'E')) &&
     var digits := if Is(s[1..], '+') || Is(s[1..], '-') then s[2..] else s[1..];
     digits != [] && IsDecimal(digits[0]) && AfterDigits(digits) == [])
  }

  predicate AllDecimal(s: seq<CodePoint>) {
    forall i :: 0 <= i < |s| ==> IsDecimal(s[i])
  }

  function DecimalValue(s: seq<CodePoint>): int {
    if s == [] then 0 else 10 * DecimalValue(s[..|s| - 1]) + (s[|s| - 1] - '0' as int)
  }

  /** The integer that a text without fraction and exponent says; any other number, and -0, is its text. */
  function NumberMeans(text: seq<CodePoint>): Data {
    var digits := Unsigned(text);
    if !AllDecimal(digits) || text == ['-' as int, '0' as int] then DNum(text)
    else DInt(if Is(text, '-') then -DecimalValue(digits) else DecimalValue(digits))
  }

  function NumberPart(s: seq<CodePoint>): (part: seq<CodePoint>)
    ensures part <= s
  {
    if s != [] && (IsDecimal(s[0]) || Is(s, '-') || Is(s, '+') || Is(s, '.') || Is(s, 'e') || Is(s, 'E'))
    then [s[0]] + NumberPart(s[1..]) else []
  }

  function ReadNumber(s: seq<CodePoint>): (r: Parsed<Data>)
    ensures r.Done? ==> |r.rest| < |s|
  {
    var part := NumberPart(s);
    if part == [] || !IsNumber(part) then Fail else Done(NumberMeans(part), s[|part|..])
  }

  // ----- Section 7: strings -----

  function Hex(c: CodePoint): int {
    if '0' as int <= c <= '9' as int then c - '0' as int
    else if 'a' as int <= c <= 'f' as int then c - 'a' as int + 10
    else if 'A' as int <= c <= 'F' as int then c - 'A' as int + 10
    else -1
  }

  /** What a backslash and that character stand for. */
  function Escaped(c: CodePoint): int {
    if c == '\"' as int then 0x22
    else if c == '\\' as int then 0x5C
    else if c == '/' as int then 0x2F
    else if c == 'b' as int then 0x08
    else if c == 'f' as int then 0x0C
    else if c == 'n' as int then 0x0A
    else if c == 'r' as int then 0x0D
    else if c == 't' as int then 0x09
    else -1
  }

  /** One character inside a string. */
  function ReadChar(s: seq<CodePoint>): (r: Parsed<CodePoint>)
    ensures r.Done? ==> |r.rest| < |s|
  {
    if s == [] || s[0] < 0x20 then Fail
    else if !Is(s, '\\') then Done(s[0], s[1..])
    else if |s| >= 2 && Escaped(s[1]) >= 0 then Done(Escaped(s[1]), s[2..])
    else if |s| >= 6 && s[1] == 'u' as int && Hex(s[2]) >= 0 && Hex(s[3]) >= 0 && Hex(s[4]) >= 0 && Hex(s[5]) >= 0 then
      Done(4096 * Hex(s[2]) + 256 * Hex(s[3]) + 16 * Hex(s[4]) + Hex(s[5]), s[6..])
    else Fail
  }

  function ReadChars(s: seq<CodePoint>): (r: Parsed<seq<CodePoint>>)
    ensures r.Done? ==> |r.rest| < |s|
    decreases |s|
  {
    if Is(s, '\"') then Done([], s[1..])
    else
      var first := ReadChar(s);
      if first.Fail? then Fail
      else
        var others := ReadChars(first.rest);
        if others.Fail? then Fail else Done([first.value] + others.value, others.rest)
  }

  function ReadString(s: seq<CodePoint>): (r: Parsed<JsString>)
    ensures r.Done? ==> |r.rest| < |s|
  {
    if !Is(s, '\"') then Fail
    else
      var chars := ReadChars(s[1..]);
      if chars.Fail? then Fail else Done(Units(chars.value), chars.rest)
  }

  // ----- Sections 3 to 5: values, objects, arrays -----

  function ReadValue(text: seq<CodePoint>): (r: Parsed<Data>)
    ensures r.Done? ==> |r.rest| < |text|
    decreases |text|, 1
  {
    var s := AfterSpace(text);
    if s == [] then Fail
    else if Is(s, '\"') then TextData(ReadString(s))
    else if Is(s, '[') then ReadArray(s[1..])
    else if Is(s, '{') then ReadObject(s[1..])
    else if Begins(s, "null") then Done(DNull, s[4..])
    else if Begins(s, "true") then Done(DBool(true), s[4..])
    else if Begins(s, "false") then Done(DBool(false), s[5..])
    else ReadNumber(s)
  }

  function ReadArray(s: seq<CodePoint>): (r: Parsed<Data>)
    ensures r.Done? ==> |r.rest| < |s|
    decreases |s|, 3
  {
    if Is(AfterSpace(s), ']') then Done(DArr([]), AfterSpace(s)[1..]) else ArrayData(ReadItems(s))
  }

  function ReadItems(s: seq<CodePoint>): (r: Parsed<seq<Data>>)
    ensures r.Done? ==> |r.rest| < |s|
    decreases |s|, 2
  {
    var first := ReadValue(s);
    if first.Fail? then Fail
    else
      var after := AfterSpace(first.rest);
      if Is(after, ']') then Done([first.value], after[1..])
      else if !Is(after, ',') then Fail
      else
        var others := ReadItems(after[1..]);
        if others.Fail? then Fail else Done([first.value] + others.value, others.rest)
  }

  function ReadObject(s: seq<CodePoint>): (r: Parsed<Data>)
    ensures r.Done? ==> |r.rest| < |s|
    decreases |s|, 3
  {
    if Is(AfterSpace(s), '}') then Done(DObj(map[]), AfterSpace(s)[1..]) else ObjectData(ReadMembers(s))
  }

  /** Of members with one name the last counts. */
  function ReadMembers(s: seq<CodePoint>): (r: Parsed<map<JsString, Data>>)
    ensures r.Done? ==> |r.rest| < |s|
    decreases |s|, 2
  {
    var key := ReadString(AfterSpace(s));
    if key.Fail? || !Is(AfterSpace(key.rest), ':') then Fail
    else
      var first := ReadValue(AfterSpace(key.rest)[1..]);
      if first.Fail? then Fail
      else
        var after := AfterSpace(first.rest);
        if Is(after, '}') then Done(map[key.value := first.value], after[1..])
        else if !Is(after, ',') then Fail
        else
          var others := ReadMembers(after[1..]);
          if others.Fail? then Fail else Done(map[key.value := first.value] + others.value, others.rest)
  }

  /** A whole JSON text. */
  function ReadText(text: seq<CodePoint>): Option<Data> {
    var r := ReadValue(text);
    if r.Fail? || AfterSpace(r.rest) != [] then None else Some(r.value)
  }

  function ReadBytes(bytes: seq<Byte>): Option<Data> {
    var text := Utf8.Decode(bytes);
    if text.NotUtf8? then None else ReadText(text.cs)
  }

  // ----- Numbers that the printers write -----

  lemma {:induction false} AllDecimalEnd(s: seq<CodePoint>)
    ensures AllDecimal(s) <==> AfterDigits(s) == []
  {
    if s != [] && IsDecimal(s[0]) {
      AllDecimalEnd(s[1..]);
      assert AllDecimal(s[1..]) ==> forall i :: 1 <= i < |s| ==> s[i] == s[1..][i - 1];
    }
  }

  /** The digits of a natural number are decimal, say it, and have no zero in front. */
  lemma {:induction false} DigitsAreDecimal(n: nat)
    ensures AllDecimal(Digits(n)) && DecimalValue(Digits(n)) == n
    ensures Digits(n)[0] == '0' as int ==> n == 0
    ensures n < 10 ==> |Digits(n)| == 1
  {
    if n >= 10 {
      DigitsAreDecimal(n / 10);
      assert Digits(n)[..|Digits(n)| - 1] == Digits(n / 10);
    } else {
      assert DecimalValue([]) == 0;
      assert Digits(n)[..0] == [];
    }
  }

  lemma {:induction false} DecimalValuePositive(s: seq<CodePoint>)
    requires AllDecimal(s) && s != [] && s[0] != '0' as int
    ensures DecimalValue(s) >= 1
  {
    var front := s[..|s| - 1];
    if front != [] {
      DecimalValuePositive(front);
    } else {
      assert DecimalValue(front) == 0;
    }
  }

  /** Decimal digits with no zero in front are the digits of their value. */
  lemma {:induction false} DigitsOfValue(s: seq<CodePoint>)
    requires AllDecimal(s) && s != [] && (s[0] != '0' as int || |s| == 1)
    ensures DecimalValue(s) >= 0 && Digits(DecimalValue(s)) == s
  {
    var front, last := s[..|s| - 1], s[|s| - 1] - '0' as int;
    assert s == front + [s[|s| - 1]];
    if front == [] {
      assert DecimalValue(front) == 0;
    } else {
      DecimalValuePositive(front);
      DigitsOfValue(front);
      assert DecimalValue(s) == 10 * DecimalValue(front) + last;
    }
  }

  /** The text of an integer is a number of the RFC and means that integer. */
  lemma ShownIsNumber(n: int)
    ensures IsNumber(Show(n)) && NumberMeans(Show(n)) == DInt(n)
  {
    var digits := Digits(if n < 0 then -n else n);
    DigitsAreDecimal(if n < 0 then -n else n);
    AllDecimalEnd(digits);
    assert Unsigned(Show(n)) == digits;
    if digits[0] == '0' as int {
      assert digits[1..] == [];
    }
  }

  lemma NoDigitsEnd(s: seq<CodePoint>)
    requires AllDecimal(s) && EndsInFraction(s)
    ensures s == []
  {
  }

  /** A number of the RFC without fraction and exponent is the text of the integer it means, unless it is -0. */
  lemma WholeIsShown(text: seq<CodePoint>)
    requires IsNumber(text) && AllDecimal(Unsigned(text)) && text != ['-' as int, '0' as int]
    ensures NumberData(text).DInt?
  {
    var digits := Unsigned(text);
    AllDecimalEnd(digits);
    if digits[0] == '0' as int {
      NoDigitsEnd(digits[1..]);
    }
    DigitsOfValue(digits);
    var value := DecimalValue(digits);
    assert text == if Is(text, '-') then [text[0]] + digits else digits;
    assert value == 0 ==> digits == Digits(value) == ['0' as int];
    ShowIsNumber(if Is(text, '-') then -value else value);
  }

  /** A number of the RFC that the printers take for no integer means its text. */
  lemma OtherNumberIsText(text: seq<CodePoint>)
    requires IsNumber(text) && NumberData(text).DNum?
    ensures NumberMeans(text) == DNum(text)
  {
    if AllDecimal(Unsigned(text)) && text != ['-' as int, '0' as int] {
      WholeIsShown(text);
    }
  }

  /** All the numbers in some data are numbers of the RFC. */
  predicate NumbersAreJson(d: Data) {
    match d
    case DNum(text) => IsNumber(text)
    case DArr(items) => ItemsAreJson(items)
    case DObj(fields) => forall k <- fields :: NumbersAreJson(fields[k])
    case _ => true
  }

  predicate FieldsAreJson(fields: map<JsString, Data>) {
    forall k <- fields :: NumbersAreJson(fields[k])
  }

  predicate ItemsAreJson(items: seq<Data>) {
    forall i :: 0 <= i < |items| ==> NumbersAreJson(items[i])
  }

  // ----- What the project's decoder reads, the RFC's reader reads alike -----

  /** The outcome once the numbers are looked at. */
  function Checked(d: Data, rest: seq<CodePoint>): Parsed<Data> {
    if NumbersAreJson(d) then Done(d, rest) else Fail
  }

  lemma {:induction false} PartIsRun(s: seq<CodePoint>)
    requires var run := NumberRun(s); !Is(s[|run|..], 'E')
    ensures NumberPart(s) == NumberRun(s)
  {
    if s != [] && IsNumberChar(s[0]) {
      var run := NumberRun(s[1..]);
      assert s[|NumberRun(s)|..] == s[1..][|run|..];
      PartIsRun(s[1..]);
    }
  }

  lemma NumberAgrees(s: seq<CodePoint>)
    requires DecodeNumber(s).Done? && !Is(DecodeNumber(s).rest, 'E')
    ensures ReadNumber(s) == Checked(DecodeNumber(s).value, DecodeNumber(s).rest)
  {
    PartIsRun(s);
    var run := NumberRun(s);
    var d := NumberData(run);
    if d.DInt? {
      ShownIsNumber(d.n);
    } else if IsNumber(run) {
      OtherNumberIsText(run);
    }
  }

  lemma HexAgrees(c: CodePoint)
    ensures Hex(c) == HexValue(c) && Escaped(c) == LongEscape(c)
  {
  }

  lemma CharAgrees(s: seq<CodePoint>)
    ensures ReadChar(s) == DecodeChar(s)
  {
    if |s| >= 2 {
      HexAgrees(s[1]);
    }
    if |s| >= 6 {
      HexAgrees(s[2]);
      HexAgrees(s[3]);
      HexAgrees(s[4]);
      HexAgrees(s[5]);
    }
  }

  lemma {:induction false} CharsAgree(s: seq<CodePoint>)
    ensures ReadChars(s) == DecodeChars(s)
    decreases |s|
  {
    CharAgrees(s);
    if !Is(s, '\"') && DecodeChar(s).Done? {
      CharsAgree(DecodeChar(s).rest);
    }
  }

  lemma StringAgrees(s: seq<CodePoint>)
    ensures ReadString(s) == DecodeQuoted(s)
  {
    if s != [] {
      CharsAgree(s[1..]);
    }
  }

  lemma {:induction false} ValueAgrees(s: seq<CodePoint>)
    requires DecodeValue(s).Done? && !Is(DecodeValue(s).rest, 'E')
    ensures ReadValue(s) == Checked(DecodeValue(s).value, DecodeValue(s).rest)
    decreases |s|, 1
  {
    assert AfterSpace(s) == s;
    if s[0] == QUOTE {
      StringAgrees(s);
    } else if s[0] == OPEN_BRACKET {
      ArrayAgrees(s[1..]);
    } else if s[0] == OPEN_BRACE {
      ObjectAgrees(s[1..]);
    } else if s[0] == MINUS || IsDigit(s[0]) {
      NumberAgrees(s);
    }
  }

  lemma {:induction false} ArrayAgrees(s: seq<CodePoint>)
    requires DecodeArray(s).Done?
    ensures ReadArray(s) == Checked(DecodeArray(s).value, DecodeArray(s).rest)
    decreases |s|, 3
  {
    if !Is(s, ']') {
      ItemsAgree(s);
    }
  }

  /** Where a decoded item is followed by one of these, no space is skipped and no number goes on. */
  lemma AfterItem(rest: seq<CodePoint>)
    requires rest != [] && (rest[0] == COMMA || rest[0] == CLOSE_BRACKET || rest[0] == CLOSE_BRACE)
    ensures AfterSpace(rest) == rest && !Is(rest, 'E')
  {
  }

  lemma NoSpaceBefore(s: seq<CodePoint>)
    requires DecodeValue(s).Done?
    ensures AfterSpace(s) == s && !Is(s, ']')
  {
  }

  /** How the reader of items goes on once it has read one. */
  lemma ReadItemsStep(s: seq<CodePoint>, d: Data, after: seq<CodePoint>)
    requires ReadValue(s) == Checked(d, after)
    requires AfterSpace(after) == after
    ensures !NumbersAreJson(d) ==> ReadItems(s) == Fail
    ensures NumbersAreJson(d) && Is(after, ']') ==> ReadItems(s) == Done([d], after[1..])
    ensures NumbersAreJson(d) && Is(after, ',') ==>
      ReadItems(s) == var others := ReadItems(after[1..]);
                      if others.Fail? then Fail else Done([d] + others.value, others.rest)
  {
  }

  lemma ItemsChecked(d: Data, others: seq<Data>)
    ensures ItemsAreJson([d] + others) <==> NumbersAreJson(d) && ItemsAreJson(others)
  {
    var all := [d] + others;
    assert all[0] == d && forall i :: 0 <= i < |others| ==> all[i + 1] == others[i];
    if ItemsAreJson(all) {
      forall i | 0 <= i < |others| ensures NumbersAreJson(others[i]) {
        assert NumbersAreJson(all[i + 1]);
      }
    }
  }

  lemma {:induction false} ItemsAgree(s: seq<CodePoint>)
    requires DecodeItems(s).Done?
    ensures ReadItems(s) == if ItemsAreJson(DecodeItems(s).value) then DecodeItems(s) else Fail
    ensures AfterSpace(s) == s && !Is(s, ']')
    decreases |s|, 2
  {
    var first := DecodeValue(s);
    AfterItem(first.rest);
    NoSpaceBefore(s);
    ValueAgrees(s);
    ReadItemsStep(s, first.value, first.rest);
    if first.rest[0] == CLOSE_BRACKET {
      ItemsChecked(first.value, []);
    } else {
      ItemsAgree(first.rest[1..]);
      ItemsChecked(first.value, DecodeItems(first.rest[1..]).value);
    }
  }

  lemma {:induction false} ObjectAgrees(s: seq<CodePoint>)
    requires DecodeObject(s).Done?
    ensures ReadObject(s) == Checked(DecodeObject(s).value, DecodeObject(s).rest)
    decreases |s|, 3
  {
    if !Is(s, '}') {
      MembersAgree(s);
    }
  }

  /** The same for the reader of members, once it has read a name. */
  lemma ReadMembersStep(s: seq<CodePoint>, key: JsString, value: seq<CodePoint>, d: Data, after: seq<CodePoint>)
    requires AfterSpace(s) == s && ReadString(s) == Done(key, [COLON] + value)
    requires ReadValue(value) == Checked(d, after)
    requires AfterSpace(after) == after
    ensures !NumbersAreJson(d) ==> ReadMembers(s) == Fail
    ensures NumbersAreJson(d) && Is(after, '}') ==> ReadMembers(s) == Done(map[key := d], after[1..])
    ensures NumbersAreJson(d) && Is(after, ',') ==>
      ReadMembers(s) == var others := ReadMembers(after[1..]);
                        if others.Fail? then Fail else Done(map[key := d] + others.value, others.rest)
  {
    assert ([COLON] + value)[1..] == value;
  }

  lemma FieldsChecked(key: JsString, d: Data, others: map<JsString, Data>)
    requires key !in others
    ensures map[key := d] + others == others[key := d]
    ensures FieldsAreJson(others[key := d]) <==> NumbersAreJson(d) && FieldsAreJson(others)
  {
    var all := others[key := d];
    if FieldsAreJson(all) {
      assert NumbersAreJson(all[key]);
      forall k | k in others ensures NumbersAreJson(others[k]) {
        assert NumbersAreJson(all[k]);
      }
    }
  }

  lemma {:induction false} MembersAgree(s: seq<CodePoint>)
    requires DecodeEntries(s).Done?
    ensures ReadMembers(s) == if FieldsAreJson(DecodeEntries(s).value) then DecodeEntries(s) else Fail
    ensures AfterSpace(s) == s && !Is(s, '}')
    decreases |s|, 2
  {
    var key := DecodeQuoted(s);
    var value := key.rest[1..];
    assert key.rest == [COLON] + value;
    StringAgrees(s);
    var first := DecodeValue(value);
    AfterItem(first.rest);
    ValueAgrees(value);
    ReadMembersStep(s, key.value, value, first.value, first.rest);
    if first.rest[0] == CLOSE_BRACE {
      FieldsChecked(key.value, first.value, map[]);
      assert map[][key.value := first.value] == map[key.value := first.value];
    } else {
      MembersAgree(first.rest[1..]);
      FieldsChecked(key.value, first.value, DecodeEntries(first.rest[1..]).value);
    }
  }

  // ----- Main results -----

  /** The text of a tree is JSON exactly if its numbers are, and is then read as what the tree means. */
  lemma PrintedIsJsonExactly(t: Tree)
    requires Decodable(t)
    ensures ReadText(Print(t)) == if NumbersAreJson(Meaning(t)) then Some(Meaning(t)) else None
  {
    DecodePrint(t, []);
    assert Print(t) + [] == Print(t);
    ValueAgrees(Print(t));
  }

  /** The same of bytes that the project's decoder reads. */
  lemma BytesAgree(bytes: seq<Byte>)
    requires ReadBack(bytes).Some?
    ensures ReadBytes(bytes) == if NumbersAreJson(ReadBack(bytes).value) then ReadBack(bytes) else None
  {
    ValueAgrees(Utf8.Decode(bytes).cs);
  }

  /** No int64 literal inside has a zero in front of other digits. */
  predicate NoLeadingZeros(v: Js) {
    match v
    case Int64Literal(source) => |Unsigned(source)| > 1 ==> Unsigned(source)[0] != '0' as int
    case Array(items) => forall i :: 0 <= i < |items| ==> NoLeadingZeros(items[i])
    case Object(entries) => forall i :: 0 <= i < |entries| ==> NoLeadingZeros(entries[i].value)
    case _ => true
  }

  lemma DigitsDecimal(digits: seq<CodePoint>)
    requires AllDigits(digits)
    ensures AllDecimal(digits)
  {
    assert forall i :: 0 <= i < |digits| ==> digits[i] in digits;
  }

  lemma LiteralIsNumberExactly(source: seq<CodePoint>)
    requires IsLiteralSource(source)
    ensures IsNumber(source) <==> (|Unsigned(source)| > 1 ==> Unsigned(source)[0] != '0' as int)
  {
    var digits := Unsigned(source);
    DigitsDecimal(digits);
    AllDecimalEnd(digits);
    if digits[0] == '0' as int && EndsInFraction(digits[1..]) {
      NoDigitsEnd(digits[1..]);
    }
  }

  /** The numbers of an accepted value, spelled out, are numbers of the RFC. */
  predicate SpelledIsJson(v: Js) {
    NumbersAreJson(Value(Spelled(v)))
  }

  lemma LiteralMeans(source: seq<CodePoint>)
    ensures Value(Spelled(Int64Literal(source))) == NumberData(source)
  {
  }

  lemma LiteralNumbers(source: seq<CodePoint>)
    requires IsLiteralSource(source)
    ensures SpelledIsJson(Int64Literal(source)) <==> NoLeadingZeros(Int64Literal(source))
  {
    LiteralMeans(source);
    LiteralIsNumberExactly(source);
    if NumberData(source).DInt? {
      ShownIsNumber(NumberData(source).n);
    }
  }

  lemma {:induction false} SpelledNumbers(v: Js, nfc: NfcTest)
    requires Accepts(v, nfc) && Genuine(v)
    ensures SpelledIsJson(v) <==> NoLeadingZeros(v)
    decreases v
  {
    match v
    case Array(items) =>
      forall i | 0 <= i < |items| ensures SpelledIsJson(items[i]) <==> NoLeadingZeros(items[i]) {
        SpelledNumbers(items[i], nfc);
      }
      SpelledArray(items);
    case Object(entries) =>
      forall i | 0 <= i < |entries| ensures SpelledIsJson(entries[i].value) <==> NoLeadingZeros(entries[i].value) {
        assert AcceptsEntry(entries[i], nfc);
        SpelledNumbers(entries[i].value, nfc);
      }
      SpelledObject(entries);
    case Int64Literal(source) => LiteralNumbers(source);
    case _ =>
  }

  lemma SpelledParts(items: seq<Js>, entries: seq<Entry<Js>>)
    ensures Value(Spelled(Array(items))) == DArr(ItemValues(SpelledItems(items)))
    ensures Value(Spelled(Object(entries))) == DObj(EntryValues(SpelledEntries(entries)))
  {
  }

  lemma {:induction false} SpelledArray(items: seq<Js>)
    ensures SpelledIsJson(Array(items)) <==> forall i :: 0 <= i < |items| ==> SpelledIsJson(items[i])
  {
    SpelledParts(items, []);
    var values := ItemValues(SpelledItems(items));
    ItemsOfArray(values);
    if ItemsAreJson(values) {
      forall i | 0 <= i < |items| ensures SpelledIsJson(items[i]) {
        assert NumbersAreJson(values[i]);
      }
    }
  }

  lemma {:induction false} SpelledObject(entries: seq<Entry<Js>>)
    requires DistinctKeys(entries)
    ensures SpelledIsJson(Object(entries)) <==> forall i :: 0 <= i < |entries| ==> SpelledIsJson(entries[i].value)
  {
    SpelledParts([], entries);
    var spelled := SpelledEntries(entries);
    SpelledKeys(entries);
    EntryFields(spelled);
    FieldsOfObject(EntryValues(spelled));
    SpelledEntryNumbers(entries);
  }

  lemma {:induction false} SpelledEntryNumbers(entries: seq<Entry<Js>>)
    ensures EntryNumbersAreJson(SpelledEntries(entries)) <==>
      forall i :: 0 <= i < |entries| ==> SpelledIsJson(entries[i].value)
  {
    var spelled := SpelledEntries(entries);
    if EntryNumbersAreJson(spelled) {
      forall i | 0 <= i < |entries| ensures SpelledIsJson(entries[i].value) {
        assert NumbersAreJson(Value(spelled[i].value));
      }
    }
  }

  lemma ItemsOfArray(items: seq<Data>)
    ensures NumbersAreJson(DArr(items)) <==> ItemsAreJson(items)
  {
  }

  lemma FieldsOfObject(fields: map<JsString, Data>)
    ensures NumbersAreJson(DObj(fields)) <==> FieldsAreJson(fields)
  {
  }

  predicate EntryNumbersAreJson(entries: seq<Entry<Js>>) {
    forall i :: 0 <= i < |entries| ==> NumbersAreJson(Value(entries[i].value))
  }

  lemma {:induction false} EntryFields(entries: seq<Entry<Js>>)
    requires DistinctKeys(entries)
    ensures FieldsAreJson(EntryValues(entries)) <==> EntryNumbersAreJson(entries)
    ensures EntryValues(entries).Keys == EntryMap(entries).Keys
  {
    if entries != [] {
      EntryFields(entries[1..]);
      FieldsChecked(entries[0].key, Value(entries[0].value), EntryValues(entries[1..]));
      assert forall i :: 1 <= i < |entries| ==> entries[i] == entries[1..][i - 1];
    }
  }

  /**
   * The canonical bytes of an accepted value are JSON text exactly if no int64 literal inside it has a leading zero,
   * and then any reader of JSON finds in them the value, with literals as the numbers and byte arrays as the strings
   * that stand for them.
   */
  lemma CanonicalIsJsonExactly(v: Js, nfc: NfcTest)
    requires Accepts(v, nfc) && Genuine(v)
    ensures ReadBytes(CanonicalBytes(v, nfc).value) ==
      if NoLeadingZeros(v) then Some(Value(Spelled(v))) else None
  {
    SpelledPrintsAlike(v, nfc);
    TreeMeansValue(Spelled(v));
    SpelledNumbers(v, nfc);
    TreeReadBack(ToTree(v));
    BytesAgree(CanonicalBytes(v, nfc).value);
  }
}
