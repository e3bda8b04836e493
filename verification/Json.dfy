/**
 * JSON text of a tree whose object entries already have their final order, and a decoder for it.
 * Both printers of the SDK, the canonical one and `JSON.stringify`, print such trees.
 */
module Json {
  import opened Utf16
  import opened Decimal

  const QUOTE: CodePoint := 0x22
  const COMMA: CodePoint := 0x2C
  const COLON: CodePoint := 0x3A
  const BACKSLASH: CodePoint := 0x5C
  const OPEN_BRACKET: CodePoint := 0x5B
  const CLOSE_BRACKET: CodePoint := 0x5D
  const OPEN_BRACE: CodePoint := 0x7B
  const CLOSE_BRACE: CodePoint := 0x7D
  const NULL: seq<CodePoint> := [0x6E, 0x75, 0x6C, 0x6C]
  const TRUE: seq<CodePoint> := [0x74, 0x72, 0x75, 0x65]
  const FALSE: seq<CodePoint> := [0x66, 0x61, 0x6C, 0x73, 0x65]
  const PLUS: CodePoint := 0x2B
  const LETTER_E: CodePoint := 0x65

  datatype Entry<V> = Entry(key: JsString, value: V)

  datatype Tree =
    | TNull
    | TBool(b: bool)
    | TInt(n: int)
    | TNum(text: seq<CodePoint>)
    | TStr(s: JsString)
    | TArr(items: seq<Tree>)
    | TObj(entries: seq<Entry<Tree>>)

  /**
   * What a JSON text says: an object is a map, so the order of its entries is not part of it, and a number that is
   * not written as an integer is its text. `DAbsent` is what no JSON text says.
   */
  datatype Data =
    | DNull
    | DBool(b: bool)
    | DInt(n: int)
    | DNum(text: seq<CodePoint>)
    | DStr(s: JsString)
    | DArr(items: seq<Data>)
    | DObj(fields: map<JsString, Data>)
    | DAbsent

  /** The key-to-value mapping of a list of entries; of a repeated key the first entry counts. */
  function EntryMap<V>(es: seq<Entry<V>>): map<JsString, V> {
    if es == [] then map[] else EntryMap(es[1..])[es[0].key := es[0].value]
  }

  predicate DistinctKeys<V>(es: seq<Entry<V>>) {
    es == [] || (es[0].key !in EntryMap(es[1..]) && DistinctKeys(es[1..]))
  }

  // ----- Printing -----

  function HexDigit(d: int): CodePoint
    requires 0 <= d < 16
  {
    if d < 10 then 0x30 + d else 0x61 + (d - 10)
  }

  function UnicodeEscape(c: int): seq<CodePoint>
    requires 0 <= c < 0x1_0000
  {
    [BACKSLASH, 0x75, HexDigit(c / 0x1000), HexDigit(c / 0x100 % 0x10), HexDigit(c / 0x10 % 0x10), HexDigit(c % 0x10)]
  }

  /** The two-character escapes. */
  function ShortEscape(c: CodePoint): int {
    if c == 0x08 then 0x62
    else if c == 0x09 then 0x74
    else if c == 0x0A then 0x6E
    else if c == 0x0C then 0x66
    else if c == 0x0D then 0x72
    else if c == QUOTE || c == BACKSLASH then c
    else -1
  }

  /** The text of one code point inside a string; only `JSON.stringify` ever meets a lone surrogate. */
  function Escape(c: CodePoint): seq<CodePoint> {
    if ShortEscape(c) >= 0 then [BACKSLASH, ShortEscape(c)]
    else if c < 0x20 || !IsScalar(c) then UnicodeEscape(c)
    else [c]
  }

  function EscapeAll(cs: seq<CodePoint>): seq<CodePoint> {
    if cs == [] then [] else Escape(cs[0]) + EscapeAll(cs[1..])
  }

  lemma EscapeStep(cs: seq<CodePoint>, i: nat)
    requires i < |cs|
    ensures EscapeAll(cs[i..]) == Escape(cs[i]) + EscapeAll(cs[i + 1..])
  {
    assert cs[i..][1..] == cs[i + 1..];
  }

  function Quoted(s: JsString): seq<CodePoint> {
    [QUOTE] + EscapeAll(CodePoints(s)) + [QUOTE]
  }

  function Print(t: Tree): seq<CodePoint>
    decreases t, 0
  {
    match t
    case TNull => NULL
    case TBool(b) => if b then TRUE else FALSE
    case TInt(n) => Show(n)
    case TNum(text) => text
    case TStr(s) => Quoted(s)
    case TArr(items) => [OPEN_BRACKET] + PrintItems(items, 0) + [CLOSE_BRACKET]
    case TObj(entries) => [OPEN_BRACE] + PrintEntries(entries, 0) + [CLOSE_BRACE]
  }

  /** The items from index i on, with the comma that precedes every item but the first. */
  function PrintItems(items: seq<Tree>, i: nat): seq<CodePoint>
    decreases items, |items| - i
  {
    if i >= |items| then []
    else Separator(i) + Print(items[i]) + PrintItems(items, i + 1)
  }

  function PrintEntries(entries: seq<Entry<Tree>>, i: nat): seq<CodePoint>
    decreases entries, |entries| - i
  {
    if i >= |entries| then []
    else Separator(i) + PrintEntry(entries[i]) + PrintEntries(entries, i + 1)
  }

  function PrintEntry(e: Entry<Tree>): seq<CodePoint>
    decreases e, 0
  {
    Quoted(e.key) + [COLON] + Print(e.value)
  }

  function Separator(i: nat): seq<CodePoint> {
    if i == 0 then [] else [COMMA]
  }

  // ----- Numbers -----

  predicate IsNumberChar(c: CodePoint) {
    IsDigit(c) || c == MINUS || c == PLUS || c == DOT || c == LETTER_E
  }

  /** The alphabet of the texts of finite numbers. */
  predicate IsNumberText(text: seq<CodePoint>) {
    text != [] && (text[0] == MINUS || IsDigit(text[0])) && forall c <- text :: IsNumberChar(c)
  }

  /** What a number's text says: the integer whose text it is, or, of any other form, the text itself. */
  function NumberData(text: seq<CodePoint>): (d: Data)
    ensures d.DInt? || d.DNum?
    ensures d.DInt? ==> text == Show(d.n)
    ensures d.DNum? ==> text == d.text
  {
    var n :=
      if text != [] && text[0] == MINUS then -(TakeDigits(text[1..], 0).value as int) else TakeDigits(text, 0).value;
    if text == Show(n) then DInt(n) else DNum(text)
  }

  /** What may follow a number without being read as part of it. */
  predicate EndsNumberText(rest: seq<CodePoint>) {
    rest != [] ==> !IsNumberChar(rest[0])
  }

  // ----- Meaning -----

  function Meaning(t: Tree): Data
    decreases t, 0
  {
    match t
    case TNull => DNull
    case TBool(b) => DBool(b)
    case TInt(n) => DInt(n)
    case TNum(text) => NumberData(text)
    case TStr(s) => DStr(s)
    case TArr(items) => DArr(ItemMeanings(items))
    case TObj(entries) => DObj(EntryMeanings(entries))
  }

  function ItemMeanings(items: seq<Tree>): (ds: seq<Data>)
    ensures |ds| == |items|
    ensures forall i :: 0 <= i < |items| ==> ds[i] == Meaning(items[i])
    decreases items, 1
  {
    seq(|items|, i requires 0 <= i < |items| => Meaning(items[i]))
  }

  function EntryMeanings(entries: seq<Entry<Tree>>): map<JsString, Data>
    decreases entries, |entries|
  {
    if entries == [] then map[]
    else EntryMeanings(entries[1..])[entries[0].key := Meaning(entries[0].value)]
  }

  /** Trees the decoder reads back: no raw literal, and no object with a repeated key. */
  predicate Decodable(t: Tree) {
    match t
    case TNum(text) => IsNumberText(text)
    case TArr(items) => forall i :: 0 <= i < |items| ==> Decodable(items[i])
    case TObj(entries) =>
      && DistinctKeys(entries)
      && forall i :: 0 <= i < |entries| ==> Decodable(entries[i].value)
    case _ => true
  }

  // ----- Decoding -----

  datatype Parsed<T> = Fail | Done(value: T, rest: seq<CodePoint>)

  function HexValue(c: CodePoint): int {
    if 0x30 <= c <= 0x39 then c - 0x30
    else if 0x61 <= c <= 0x66 then c - 0x61 + 10
    else if 0x41 <= c <= 0x46 then c - 0x41 + 10
    else -1
  }

  function LongEscape(c: CodePoint): int {
    if c == 0x62 then 0x08
    else if c == 0x74 then 0x09
    else if c == 0x6E then 0x0A
    else if c == 0x66 then 0x0C
    else if c == 0x72 then 0x0D
    else if c == QUOTE || c == BACKSLASH || c == 0x2F then c
    else -1
  }

  function DecodeChar(s: seq<CodePoint>): (r: Parsed<CodePoint>)
    ensures r.Done? ==> |r.rest| < |s|
  {
    if s == [] || s[0] < 0x20 then Fail
    else if s[0] != BACKSLASH then Done(s[0], s[1..])
    else if |s| >= 2 && LongEscape(s[1]) >= 0 then Done(LongEscape(s[1]), s[2..])
    else if |s| >= 6 && s[1] == 0x75
            && HexValue(s[2]) >= 0 && HexValue(s[3]) >= 0 && HexValue(s[4]) >= 0 && HexValue(s[5]) >= 0 then
      Done(HexValue(s[2]) * 0x1000 + HexValue(s[3]) * 0x100 + HexValue(s[4]) * 0x10 + HexValue(s[5]), s[6..])
    else Fail
  }

  /** The rest of a string, after its opening quote. */
  function DecodeChars(s: seq<CodePoint>): (r: Parsed<seq<CodePoint>>)
    ensures r.Done? ==> |r.rest| < |s|
    decreases |s|
  {
    if s != [] && s[0] == QUOTE then Done([], s[1..])
    else
      var first := DecodeChar(s);
      if first.Fail? then Fail
      else
        var others := DecodeChars(first.rest);
        if others.Fail? then Fail else Done([first.value] + others.value, others.rest)
  }

  function DecodeQuoted(s: seq<CodePoint>): (r: Parsed<JsString>)
    ensures r.Done? ==> |r.rest| < |s|
  {
    if s == [] || s[0] != QUOTE then Fail
    else
      var chars := DecodeChars(s[1..]);
      if chars.Fail? then Fail else Done(Units(chars.value), chars.rest)
  }

  function NumberRun(s: seq<CodePoint>): (run: seq<CodePoint>)
    ensures run <= s
  {
    if s != [] && IsNumberChar(s[0]) then [s[0]] + NumberRun(s[1..]) else []
  }

  function DecodeNumber(s: seq<CodePoint>): (r: Parsed<Data>)
    ensures r.Done? ==> |r.rest| < |s|
  {
    var run := NumberRun(s);
    if run == [] then Fail else Done(NumberData(run), s[|run|..])
  }

  function DecodeKeyword(s: seq<CodePoint>): (r: Parsed<Data>)
    ensures r.Done? ==> |r.rest| < |s|
  {
    if NULL <= s then Done(DNull, s[4..])
    else if TRUE <= s then Done(DBool(true), s[4..])
    else if FALSE <= s then Done(DBool(false), s[5..])
    else Fail
  }

  function TextData(text: Parsed<JsString>): Parsed<Data> {
    if text.Fail? then Fail else Done(DStr(text.value), text.rest)
  }

  function ArrayData(items: Parsed<seq<Data>>): Parsed<Data> {
    if items.Fail? then Fail else Done(DArr(items.value), items.rest)
  }

  function ObjectData(fields: Parsed<map<JsString, Data>>): Parsed<Data> {
    if fields.Fail? then Fail else Done(DObj(fields.value), fields.rest)
  }

  /** The first code point tells what kind of value follows. */
  function DecodeValue(s: seq<CodePoint>): (r: Parsed<Data>)
    ensures r.Done? ==> |r.rest| < |s|
    decreases |s|, 1
  {
    if s == [] then Fail
    else if s[0] == QUOTE then TextData(DecodeQuoted(s))
    else if s[0] == OPEN_BRACKET then DecodeArray(s[1..])
    else if s[0] == OPEN_BRACE then DecodeObject(s[1..])
    else if s[0] == MINUS || IsDigit(s[0]) then DecodeNumber(s)
    else DecodeKeyword(s)
  }

  /** The rest of an array, after its opening bracket. */
  function DecodeArray(s: seq<CodePoint>): (r: Parsed<Data>)
    ensures r.Done? ==> |r.rest| < |s|
    decreases |s|, 3
  {
    if s != [] && s[0] == CLOSE_BRACKET then Done(DArr([]), s[1..]) else ArrayData(DecodeItems(s))
  }

  function DecodeObject(s: seq<CodePoint>): (r: Parsed<Data>)
    ensures r.Done? ==> |r.rest| < |s|
    decreases |s|, 3
  {
    if s != [] && s[0] == CLOSE_BRACE then Done(DObj(map[]), s[1..]) else ObjectData(DecodeEntries(s))
  }

  /** At least one item, up to and including the closing bracket. */
  function DecodeItems(s: seq<CodePoint>): (r: Parsed<seq<Data>>)
    ensures r.Done? ==> |r.rest| < |s|
    decreases |s|, 2
  {
    var first := DecodeValue(s);
    if first.Fail? || first.rest == [] then Fail
    else if first.rest[0] == CLOSE_BRACKET then Done([first.value], first.rest[1..])
    else if first.rest[0] != COMMA then Fail
    else
      var others := DecodeItems(first.rest[1..]);
      if others.Fail? then Fail else Done([first.value] + others.value, others.rest)
  }

  function DecodeEntries(s: seq<CodePoint>): (r: Parsed<map<JsString, Data>>)
    ensures r.Done? ==> |r.rest| < |s|
    decreases |s|, 2
  {
    var key := DecodeQuoted(s);
    if key.Fail? || key.rest == [] || key.rest[0] != COLON then Fail
    else
      var first := DecodeValue(key.rest[1..]);
      if first.Fail? || first.rest == [] then Fail
      else if first.rest[0] == CLOSE_BRACE then Done(map[key.value := first.value], first.rest[1..])
      else if first.rest[0] != COMMA then Fail
      else
        var others := DecodeEntries(first.rest[1..]);
        if others.Fail? || key.value in others.value then Fail
        else Done(others.value[key.value := first.value], others.rest)
  }

  // ----- The decoder undoes the printer -----

  lemma HexDigitsSum(c: int)
    requires 0 <= c < 0x1_0000
    ensures c / 0x1000 * 0x1000 + c / 0x100 % 0x10 * 0x100 + c / 0x10 % 0x10 * 0x10 + c % 0x10 == c
  {
    assert c / 0x1000 * 0x10 + c / 0x100 % 0x10 == c / 0x100;
    assert c / 0x100 * 0x10 + c / 0x10 % 0x10 == c / 0x10;
  }

  lemma DecodeUnicodeEscape(c: CodePoint, rest: seq<CodePoint>)
    requires c < 0x1_0000
    ensures DecodeChar(UnicodeEscape(c) + rest) == Done(c, rest)
  {
    var s := UnicodeEscape(c) + rest;
    assert s[6..] == rest && s[..6] == UnicodeEscape(c);
    HexDigitValue(c / 0x1000);
    HexDigitValue(c / 0x100 % 0x10);
    HexDigitValue(c / 0x10 % 0x10);
    HexDigitValue(c % 0x10);
    HexDigitsSum(c);
  }

  lemma HexDigitValue(d: int)
    requires 0 <= d < 16
    ensures HexValue(HexDigit(d)) == d
  {
  }

  lemma DecodeEscape(c: CodePoint, rest: seq<CodePoint>)
    ensures DecodeChar(Escape(c) + rest) == Done(c, rest)
    ensures Escape(c)[0] != QUOTE
  {
    if ShortEscape(c) < 0 && (c < 0x20 || !IsScalar(c)) {
      DecodeUnicodeEscape(c, rest);
    } else {
      assert (Escape(c) + rest)[|Escape(c)|..] == rest;
    }
  }

  lemma {:induction false} DecodeEscaped(cs: seq<CodePoint>, rest: seq<CodePoint>)
    ensures DecodeChars(EscapeAll(cs) + [QUOTE] + rest) == Done(cs, rest)
  {
    var s := EscapeAll(cs) + [QUOTE] + rest;
    if cs == [] {
      assert s == [QUOTE] + rest;
    } else {
      var after := EscapeAll(cs[1..]) + [QUOTE] + rest;
      assert s == Escape(cs[0]) + after;
      DecodeEscape(cs[0], after);
      DecodeEscaped(cs[1..], rest);
      assert cs == [cs[0]] + cs[1..];
    }
  }

  lemma DecodeQuotedText(s: JsString, rest: seq<CodePoint>)
    ensures DecodeQuoted(Quoted(s) + rest) == Done(s, rest)
  {
    var body := EscapeAll(CodePoints(s)) + [QUOTE] + rest;
    assert (Quoted(s) + rest)[1..] == body;
    DecodeEscaped(CodePoints(s), rest);
    UnitsOfCodePoints(s);
  }

  lemma {:induction false} RunOfText(text: seq<CodePoint>, rest: seq<CodePoint>)
    requires (forall c <- text :: IsNumberChar(c)) && EndsNumberText(rest)
    ensures NumberRun(text + rest) == text
  {
    if text == [] {
      assert text + rest == rest;
    } else {
      RunOfText(text[1..], rest);
      assert (text + rest)[1..] == text[1..] + rest;
      assert text == [text[0]] + text[1..];
    }
  }

  lemma DecodeNumberText(text: seq<CodePoint>, rest: seq<CodePoint>)
    requires IsNumberText(text) && EndsNumberText(rest)
    ensures DecodeValue(text + rest) == Done(NumberData(text), rest)
  {
    RunOfText(text, rest);
    assert (text + rest)[0] == text[0] && (text + rest)[|text|..] == rest;
  }

  lemma {:induction false} DigitsOnly(n: nat)
    ensures forall c <- Digits(n) :: IsDigit(c)
  {
    if n >= 10 {
      DigitsOnly(n / 10);
    }
  }

  /** The text of an integer is one of a number, and says that integer. */
  lemma {:induction false} ShowIsNumber(n: int)
    ensures IsNumberText(Show(n)) && NumberData(Show(n)) == DInt(n)
  {
    var digits := Digits(if n < 0 then -n else n);
    DigitsOnly(if n < 0 then -n else n);
    TakeDigitsOfDigits(if n < 0 then -n else n, []);
    assert digits + [] == digits;
    assert n < 0 ==> Show(n)[1..] == digits;
  }

  lemma DecodeShown(n: int, rest: seq<CodePoint>)
    requires EndsNumberText(rest)
    ensures DecodeValue(Show(n) + rest) == Done(DInt(n), rest)
  {
    ShowIsNumber(n);
    DecodeNumberText(Show(n), rest);
  }

  /** Nothing prints a text that could be taken for a closing bracket or brace. */
  lemma PrintStart(t: Tree)
    requires Decodable(t)
    ensures Print(t) != [] && Print(t)[0] != CLOSE_BRACKET && Print(t)[0] != CLOSE_BRACE
  {
  }

  /** What follows an item or entry up to the end: the others, the closing mark, the rest of the text. */
  function ItemsFrom(items: seq<Tree>, i: nat, rest: seq<CodePoint>): seq<CodePoint> {
    PrintItems(items, i) + ([CLOSE_BRACKET] + rest)
  }

  function EntriesFrom(entries: seq<Entry<Tree>>, i: nat, rest: seq<CodePoint>): seq<CodePoint> {
    PrintEntries(entries, i) + ([CLOSE_BRACE] + rest)
  }

  lemma Nested(a: seq<CodePoint>, b: seq<CodePoint>, c: seq<CodePoint>, d: seq<CodePoint>)
    ensures a + b + c + d == a + (b + (c + d))
  {
  }

  lemma ItemsFromStep(items: seq<Tree>, i: nat, rest: seq<CodePoint>)
    requires i <= |items|
    ensures i == |items| ==> ItemsFrom(items, i, rest) == [CLOSE_BRACKET] + rest
    ensures i < |items| ==>
      ItemsFrom(items, i, rest) == Separator(i) + (Print(items[i]) + ItemsFrom(items, i + 1, rest))
  {
    if i < |items| {
      Nested(Separator(i), Print(items[i]), PrintItems(items, i + 1), [CLOSE_BRACKET] + rest);
    }
  }

  lemma EntriesFromStep(entries: seq<Entry<Tree>>, i: nat, rest: seq<CodePoint>)
    requires i <= |entries|
    ensures i == |entries| ==> EntriesFrom(entries, i, rest) == [CLOSE_BRACE] + rest
    ensures i < |entries| ==>
      EntriesFrom(entries, i, rest) == Separator(i) + (PrintEntry(entries[i]) + EntriesFrom(entries, i + 1, rest))
  {
    if i < |entries| {
      Nested(Separator(i), PrintEntry(entries[i]), PrintEntries(entries, i + 1), [CLOSE_BRACE] + rest);
    }
  }

  /** How the item decoder goes on once its first value is read. */
  lemma DecodeItemsStep(s: seq<CodePoint>, d: Data, after: seq<CodePoint>)
    requires DecodeValue(s) == Done(d, after)
    ensures forall rest :: after == [CLOSE_BRACKET] + rest ==> DecodeItems(s) == Done([d], rest)
    ensures forall more :: after == [COMMA] + more ==>
      DecodeItems(s) == var others := DecodeItems(more);
                        if others.Fail? then Fail else Done([d] + others.value, others.rest)
  {
    forall more | after == [COMMA] + more || after == [CLOSE_BRACKET] + more ensures after[1..] == more {
    }
  }

  lemma DecodeEntriesStep(s: seq<CodePoint>, key: JsString, d: Data, valueOn: seq<CodePoint>, after: seq<CodePoint>)
    requires DecodeQuoted(s) == Done(key, [COLON] + valueOn)
    requires DecodeValue(valueOn) == Done(d, after)
    ensures forall rest :: after == [CLOSE_BRACE] + rest ==> DecodeEntries(s) == Done(map[key := d], rest)
    ensures forall more :: after == [COMMA] + more ==>
      DecodeEntries(s) == var others := DecodeEntries(more);
                          if others.Fail? || key in others.value then Fail
                          else Done(others.value[key := d], others.rest)
  {
    assert ([COLON] + valueOn)[1..] == valueOn;
    forall more | after == [COMMA] + more || after == [CLOSE_BRACE] + more ensures after[1..] == more {
    }
  }

  lemma DecodeKeywords(rest: seq<CodePoint>)
    ensures DecodeValue(NULL + rest) == Done(DNull, rest)
    ensures DecodeValue(TRUE + rest) == Done(DBool(true), rest)
    ensures DecodeValue(FALSE + rest) == Done(DBool(false), rest)
  {
    assert (NULL + rest)[4..] == rest && NULL <= NULL + rest;
    assert (TRUE + rest)[4..] == rest && TRUE <= TRUE + rest && (TRUE + rest)[0] == TRUE[0];
    assert (FALSE + rest)[5..] == rest && FALSE <= FALSE + rest && (FALSE + rest)[0] == FALSE[0];
  }

  lemma DecodeQuotedValue(s: JsString, rest: seq<CodePoint>)
    ensures DecodeValue(Quoted(s) + rest) == Done(DStr(s), rest)
  {
    DecodeQuotedText(s, rest);
    assert (Quoted(s) + rest)[0] == QUOTE;
  }

  lemma DecodeOpened(body: seq<CodePoint>)
    ensures DecodeValue([OPEN_BRACKET] + body) == DecodeArray(body)
    ensures DecodeValue([OPEN_BRACE] + body) == DecodeObject(body)
  {
    assert ([OPEN_BRACKET] + body)[1..] == body && ([OPEN_BRACE] + body)[1..] == body;
  }

  lemma DecodeNonEmpty(first: seq<CodePoint>, more: seq<CodePoint>)
    requires first != [] && first[0] != CLOSE_BRACKET
    ensures DecodeArray(first + more) == ArrayData(DecodeItems(first + more))
  {
    assert (first + more)[0] == first[0];
  }

  lemma DecodeBracketed(items: seq<Tree>, rest: seq<CodePoint>)
    requires items != [] ==> Print(items[0]) != [] && Print(items[0])[0] != CLOSE_BRACKET
    ensures DecodeValue(Print(TArr(items)) + rest) ==
      if items == [] then Done(DArr([]), rest)
      else ArrayData(DecodeItems(Print(items[0]) + ItemsFrom(items, 1, rest)))
  {
    var body := ItemsFrom(items, 0, rest);
    Nested([OPEN_BRACKET], PrintItems(items, 0), [CLOSE_BRACKET], rest);
    DecodeOpened(body);
    ItemsFromStep(items, 0, rest);
    if items == [] {
      assert body[1..] == rest;
    } else {
      assert body == Print(items[0]) + ItemsFrom(items, 1, rest);
      DecodeNonEmpty(Print(items[0]), ItemsFrom(items, 1, rest));
    }
  }

  lemma DecodeBraced(entries: seq<Entry<Tree>>, rest: seq<CodePoint>)
    ensures DecodeValue(Print(TObj(entries)) + rest) ==
      if entries == [] then Done(DObj(map[]), rest)
      else ObjectData(DecodeEntries(PrintEntry(entries[0]) + EntriesFrom(entries, 1, rest)))
  {
    var body := EntriesFrom(entries, 0, rest);
    Nested([OPEN_BRACE], PrintEntries(entries, 0), [CLOSE_BRACE], rest);
    DecodeOpened(body);
    EntriesFromStep(entries, 0, rest);
    if entries == [] {
      assert body[1..] == rest;
    } else {
      assert body == PrintEntry(entries[0]) + EntriesFrom(entries, 1, rest);
      assert PrintEntry(entries[0])[0] == QUOTE;
    }
  }

  /**
   * Every printed tree is read back whole in front of any text; only a number asks that the text does not go on with
   * what may be part of one.
   */
  lemma {:induction false} DecodePrint(t: Tree, rest: seq<CodePoint>)
    requires Decodable(t)
    requires t.TInt? || t.TNum? ==> EndsNumberText(rest)
    ensures DecodeValue(Print(t) + rest) == Done(Meaning(t), rest)
    decreases t, 0
  {
    match t
    case TNull => DecodeKeywords(rest);
    case TBool(b) => DecodeKeywords(rest);
    case TInt(n) => DecodeShown(n, rest);
    case TNum(text) => DecodeNumberText(text, rest);
    case TStr(text) => DecodeQuotedValue(text, rest);
    case TArr(items) =>
      if items != [] {
        DecodePrintItems(items, 0, rest);
      }
      DecodeWholeArray(items, rest);
    case TObj(entries) =>
      if entries != [] {
        assert entries[0..] == entries;
        DecodePrintEntries(entries, 0, rest);
      }
      DecodeWholeObject(entries, rest);
  }

  lemma DecodeWholeArray(items: seq<Tree>, rest: seq<CodePoint>)
    requires items != [] ==> Decodable(items[0])
    requires items != [] ==>
      DecodeItems(Print(items[0]) + ItemsFrom(items, 1, rest)) == Done(ItemMeanings(items[0..]), rest)
    ensures DecodeValue(Print(TArr(items)) + rest) == Done(Meaning(TArr(items)), rest)
  {
    if items != [] {
      PrintStart(items[0]);
    }
    DecodeBracketed(items, rest);
    assert items[0..] == items;
    assert items == [] ==> ItemMeanings(items) == [];
  }

  lemma DecodeWholeObject(entries: seq<Entry<Tree>>, rest: seq<CodePoint>)
    requires entries != [] ==>
      DecodeEntries(PrintEntry(entries[0]) + EntriesFrom(entries, 1, rest)) == Done(EntryMeanings(entries[0..]), rest)
    ensures DecodeValue(Print(TObj(entries)) + rest) == Done(Meaning(TObj(entries)), rest)
  {
    DecodeBraced(entries, rest);
    assert entries[0..] == entries;
  }

  lemma {:induction false} DecodePrintItems(items: seq<Tree>, i: nat, rest: seq<CodePoint>)
    requires i < |items|
    requires forall j :: 0 <= j < |items| ==> Decodable(items[j])
    ensures DecodeItems(Print(items[i]) + ItemsFrom(items, i + 1, rest)) == Done(ItemMeanings(items[i..]), rest)
    decreases items, |items| - i
  {
    var after := ItemsFrom(items, i + 1, rest);
    ItemsFromStep(items, i + 1, rest);
    assert EndsNumberText(after);
    DecodePrint(items[i], after);
    DecodeItemsStep(Print(items[i]) + after, Meaning(items[i]), after);
    if i + 1 == |items| {
      assert ItemMeanings(items[i..]) == [Meaning(items[i])];
    } else {
      DecodePrintItems(items, i + 1, rest);
      assert ItemMeanings(items[i..]) == [Meaning(items[i])] + ItemMeanings(items[i + 1..]);
    }
  }

  lemma {:induction false} DecodePrintEntries(entries: seq<Entry<Tree>>, i: nat, rest: seq<CodePoint>)
    requires i < |entries|
    requires DistinctKeys(entries[i..])
    requires forall j :: 0 <= j < |entries| ==> Decodable(entries[j].value)
    ensures DecodeEntries(PrintEntry(entries[i]) + EntriesFrom(entries, i + 1, rest))
         == Done(EntryMeanings(entries[i..]), rest)
    decreases entries, |entries| - i
  {
    var e := entries[i];
    var after := EntriesFrom(entries, i + 1, rest);
    EntriesFromStep(entries, i + 1, rest);
    assert EndsNumberText(after);
    DecodePrint(e.value, after);
    DecodeKeyOfEntry(e, after);
    DecodeEntriesStep(PrintEntry(e) + after, e.key, Meaning(e.value), Print(e.value) + after, after);
    FirstEntryMeaning(entries, i);
    if i + 1 < |entries| {
      DecodePrintEntries(entries, i + 1, rest);
    }
  }

  lemma DecodeKeyOfEntry(e: Entry<Tree>, after: seq<CodePoint>)
    ensures DecodeQuoted(PrintEntry(e) + after) == Done(e.key, [COLON] + (Print(e.value) + after))
  {
    var on := [COLON] + (Print(e.value) + after);
    DecodeQuotedText(e.key, on);
    KeyThenValue(Quoted(e.key), Print(e.value), after);
  }

  lemma KeyThenValue(key: seq<CodePoint>, value: seq<CodePoint>, after: seq<CodePoint>)
    ensures key + [COLON] + value + after == key + ([COLON] + (value + after))
  {
  }

  lemma FirstEntryMeaning(entries: seq<Entry<Tree>>, i: nat)
    requires i < |entries| && DistinctKeys(entries[i..])
    ensures DistinctKeys(entries[i + 1..])
    ensures EntryMeanings(entries[i..]) == EntryMeanings(entries[i + 1..])[entries[i].key := Meaning(entries[i].value)]
    ensures entries[i].key !in EntryMeanings(entries[i + 1..])
    ensures i + 1 == |entries| ==> EntryMeanings(entries[i..]) == map[entries[i].key := Meaning(entries[i].value)]
  {
    assert entries[i..][1..] == entries[i + 1..];
    EntryMeaningKeys(entries[i + 1..]);
  }

  lemma {:induction false} EntryMeaningKeys(entries: seq<Entry<Tree>>)
    ensures EntryMeanings(entries).Keys == EntryMap(entries).Keys
  {
    if entries != [] {
      EntryMeaningKeys(entries[1..]);
    }
  }
}
