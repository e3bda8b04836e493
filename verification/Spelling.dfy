/** Canonical bytes of values that hold byte arrays and int64 literals, at any depth: when two of them are equal. */
module Spelling {
  import opened Octets
  import opened Utf16
  import opened World
  import opened Decimal
  import opened Json
  import opened KeySort
  import opened Canonical
  import opened CanonicalProofs
  import Base64

  /** `int64LiteralForConformance`: the sources it lets through. */
  predicate IsLiteralSource(source: seq<CodePoint>) {
    var digits := if source != [] && source[0] == MINUS then source[1..] else source;
    var value: int := TakeDigits(digits, 0).value;
    && AllDigits(digits)
    && InInt64(if digits == source then value else -value)
  }

  predicate AllDigits(s: seq<CodePoint>) {
    s != [] && forall c <- s :: IsDigit(c)
  }

  /** Every literal inside was made by that function, the only one that can make them. */
  predicate Genuine(v: Js) {
    match v
    case Int64Literal(source) => IsLiteralSource(source)
    case Array(items) => forall i :: 0 <= i < |items| ==> Genuine(items[i])
    case Object(entries) => forall i :: 0 <= i < |entries| ==> Genuine(entries[i].value)
    case _ => true
  }

  /** The number that a literal spells; one that is no safe integer, or not in its usual form, is its text. */
  function LiteralNumber(source: seq<CodePoint>): JsNumber {
    var d := NumberData(source);
    if d.DInt? && IsSafeInteger(d.n) then Whole(d.n) else Double(source)
  }

  /** The value with each byte array as the string of its base64url text, and each literal as the number it spells. */
  function Spelled(v: Js): Js
    decreases v, 0
  {
    match v
    case ByteArray(bytes) => Str(Base64.ToBase64UrlNoPad(bytes))
    case Int64Literal(source) => Number(LiteralNumber(source))
    case Array(items) => Array(SpelledItems(items))
    case Object(entries) => Object(SpelledEntries(entries))
    case _ => v
  }

  function SpelledItems(items: seq<Js>): (r: seq<Js>)
    ensures |r| == |items|
    ensures forall i :: 0 <= i < |items| ==> r[i] == Spelled(items[i])
    decreases items, 1
  {
    seq(|items|, i requires 0 <= i < |items| => Spelled(items[i]))
  }

  function SpelledEntries(entries: seq<Entry<Js>>): (r: seq<Entry<Js>>)
    ensures |r| == |entries|
    ensures forall i :: 0 <= i < |entries| ==> r[i] == Entry(entries[i].key, Spelled(entries[i].value))
    decreases entries, 1
  {
    seq(|entries|, i requires 0 <= i < |entries| => Entry(entries[i].key, Spelled(entries[i].value)))
  }

  lemma {:induction false} SpelledKeys(entries: seq<Entry<Js>>)
    ensures EntryMap(SpelledEntries(entries)).Keys == EntryMap(entries).Keys
    ensures DistinctKeys(SpelledEntries(entries)) <==> DistinctKeys(entries)
  {
    if entries != [] {
      assert SpelledEntries(entries)[1..] == SpelledEntries(entries[1..]);
      SpelledKeys(entries[1..]);
    }
  }

  /** An accepted value prints what its spelled-out form does, which is a JSON value. */
  lemma {:induction false} SpelledPrintsAlike(v: Js, nfc: NfcTest)
    requires Accepts(v, nfc) && Genuine(v)
    ensures JsonValue(Spelled(v)) && ToTree(Spelled(v)) == ToTree(v)
    decreases v
  {
    match v
    case Array(items) =>
      forall i | 0 <= i < |items|
        ensures JsonValue(Spelled(items[i])) && ToTree(Spelled(items[i])) == ToTree(items[i])
      {
        SpelledPrintsAlike(items[i], nfc);
      }
      assert ItemTrees(SpelledItems(items)) == ItemTrees(items);
    case Object(entries) =>
      forall i | 0 <= i < |entries|
        ensures JsonValue(Spelled(entries[i].value)) && ToTree(Spelled(entries[i].value)) == ToTree(entries[i].value)
      {
        assert AcceptsEntry(entries[i], nfc);
        SpelledPrintsAlike(entries[i].value, nfc);
      }
      SpelledKeys(entries);
      assert EntryTrees(SpelledEntries(entries)) == EntryTrees(entries);
    case Int64Literal(source) =>
      LiteralIsNumberText(source);
    case _ =>
  }

  lemma LiteralIsNumberText(source: seq<CodePoint>)
    requires IsLiteralSource(source)
    ensures IsNumberText(source)
  {
    if source[0] == MINUS {
      assert forall c <- source :: c == MINUS || c in source[1..];
    }
  }

  /**
   * Two accepted values have equal canonical bytes exactly when they are equal, up to the order of object keys,
   * once byte arrays are their base64url strings and literals the numbers they spell, at every depth.
   */
  lemma {:induction false} CanonicalBytesExactly(v: Js, w: Js, nfc: NfcTest)
    requires Accepts(v, nfc) && Genuine(v) && Accepts(w, nfc) && Genuine(w)
    ensures CanonicalBytes(v, nfc) == CanonicalBytes(w, nfc) <==> Value(Spelled(v)) == Value(Spelled(w))
  {
    SpelledPrintsAlike(v, nfc);
    SpelledPrintsAlike(w, nfc);
    TreeMeansValue(Spelled(v));
    TreeMeansValue(Spelled(w));
    TreeReadBack(ToTree(v));
    TreeReadBack(ToTree(w));
    if Value(Spelled(v)) == Value(Spelled(w)) {
      SameValueSameTree(Spelled(v), Spelled(w));
    }
  }

  /** Every string inside, each key and the text of each byte array among them, passes the tests of `emitString`. */
  predicate TextsAccepted(v: Js, nfc: NfcTest) {
    match v
    case Str(s) => nfc(s) && AllScalar(CodePoints(s))
    case ByteArray(bytes) =>
      var text := Base64.ToBase64UrlNoPad(bytes);
      nfc(text) && AllScalar(CodePoints(text))
    case Array(items) => forall i :: 0 <= i < |items| ==> TextsAccepted(items[i], nfc)
    case Object(entries) => forall i :: 0 <= i < |entries| ==>
      nfc(entries[i].key) && AllScalar(CodePoints(entries[i].key)) && TextsAccepted(entries[i].value, nfc)
    case _ => true
  }

  predicate HasFraction(v: Js) {
    match v
    case Number(n) => n.Double?
    case Array(items) => exists i :: 0 <= i < |items| && HasFraction(items[i])
    case Object(entries) => exists i :: 0 <= i < |entries| && HasFraction(entries[i].value)
    case _ => false
  }

  /**
   * A value is accepted exactly if it is JSON once its byte arrays and literals are spelled out, it holds no number
   * that is not an integer, and each of its strings is well-formed and in normal form C.
   */
  lemma {:induction false} AcceptedExactly(v: Js, nfc: NfcTest)
    requires Genuine(v)
    ensures Accepts(v, nfc) <==> JsonValue(Spelled(v)) && !HasFraction(v) && TextsAccepted(v, nfc)
    decreases v
  {
    match v
    case Array(items) =>
      forall i | 0 <= i < |items|
        ensures Accepts(items[i], nfc) <==>
          JsonValue(Spelled(items[i])) && !HasFraction(items[i]) && TextsAccepted(items[i], nfc)
      {
        AcceptedExactly(items[i], nfc);
      }
      AcceptedItems(items, nfc);
    case Object(entries) =>
      forall i | 0 <= i < |entries|
        ensures Accepts(entries[i].value, nfc) <==>
          JsonValue(Spelled(entries[i].value)) && !HasFraction(entries[i].value) && TextsAccepted(entries[i].value, nfc)
      {
        AcceptedExactly(entries[i].value, nfc);
      }
      AcceptedObject(entries, nfc);
    case Int64Literal(source) => LiteralIsNumberText(source);
    case _ =>
  }

  lemma AcceptedItems(items: seq<Js>, nfc: NfcTest)
    requires forall i :: 0 <= i < |items| ==> (Accepts(items[i], nfc) <==>
      JsonValue(Spelled(items[i])) && !HasFraction(items[i]) && TextsAccepted(items[i], nfc))
    ensures var v := Array(items);
      Accepts(v, nfc) <==> JsonValue(Spelled(v)) && !HasFraction(v) && TextsAccepted(v, nfc)
  {
  }

  lemma AcceptedObject(entries: seq<Entry<Js>>, nfc: NfcTest)
    requires forall i :: 0 <= i < |entries| ==> (Accepts(entries[i].value, nfc) <==>
      JsonValue(Spelled(entries[i].value)) && !HasFraction(entries[i].value) && TextsAccepted(entries[i].value, nfc))
    ensures var v := Object(entries);
      Accepts(v, nfc) <==> JsonValue(Spelled(v)) && !HasFraction(v) && TextsAccepted(v, nfc)
  {
    SpelledKeys(entries);
    if Accepts(Object(entries), nfc) {
      forall i | 0 <= i < |entries| ensures AcceptsEntry(entries[i], nfc) {
        assert AcceptsEntries(entries, nfc) && entries[i] in entries;
      }
    }
    if forall i :: 0 <= i < |entries| ==> AcceptsEntry(entries[i], nfc) {
      assert forall e <- entries :: AcceptsEntry(e, nfc);
    }
  }

  /** Nothing is spelled differently exactly in values without byte arrays and literals. */
  lemma {:induction false} SpelledIsSameExactly(v: Js)
    ensures Spelled(v) == v <==> NothingToSpell(v)
    decreases v
  {
    match v
    case Array(items) =>
      forall i | 0 <= i < |items| ensures Spelled(items[i]) == items[i] <==> NothingToSpell(items[i]) {
        SpelledIsSameExactly(items[i]);
      }
      if Spelled(v) == v {
        assert forall i :: 0 <= i < |items| ==> SpelledItems(items)[i] == items[i];
      }
      if NothingToSpell(v) {
        assert SpelledItems(items) == items;
      }
    case Object(entries) =>
      forall i | 0 <= i < |entries|
        ensures Spelled(entries[i].value) == entries[i].value <==> NothingToSpell(entries[i].value)
      {
        SpelledIsSameExactly(entries[i].value);
      }
      if Spelled(v) == v {
        assert forall i :: 0 <= i < |entries| ==> SpelledEntries(entries)[i] == entries[i];
      }
      if NothingToSpell(v) {
        assert SpelledEntries(entries) == entries;
      }
    case _ =>
  }

  predicate NothingToSpell(v: Js) {
    match v
    case ByteArray(_) => false
    case Int64Literal(_) => false
    case Array(items) => forall i :: 0 <= i < |items| ==> NothingToSpell(items[i])
    case Object(entries) => forall i :: 0 <= i < |entries| ==> NothingToSpell(entries[i].value)
    case _ => true
  }
}
