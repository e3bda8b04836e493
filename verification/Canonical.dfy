/**
 * The restricted JSON canonical form of audit events: what is accepted, what is printed, the emitter
 * that prints it, and the proof that the printed bytes determine the value up to key order.
 */
module Canonical {
  import opened Octets
  import opened Utf16
  import opened Utf8
  import opened Decimal
  import opened Json
  import opened KeySort
  import opened World
  import Base64

  const SAFE_MAX: int := 0x1F_FFFF_FFFF_FFFF
  const INT64_MIN: int := -0x8000_0000_0000_0000
  const INT64_MAX: int := 0x7FFF_FFFF_FFFF_FFFF

  /** Besides integers, `Double` is any other finite number, by the text that `Number.prototype.toString` gives it. */
  datatype JsNumber = NotFinite | Double(text: seq<CodePoint>) | NegativeZero | Whole(n: int)

  /** A JavaScript value as `emit` tells them apart. An object lists its own keys in the
      order of `Object.keys`; `Hole` stands for an element that a sparse array does not have. */
  datatype Js =
    | Undefined
    | Null
    | Boolean(b: bool)
    | Number(n: JsNumber)
    | BigInt(i: int)
    | Str(s: JsString)
    | ByteArray(bytes: seq<Byte>)
    | DateObject
    | Int64Literal(source: seq<CodePoint>)
    | Array(items: seq<Js>)
    | Object(entries: seq<Entry<Js>>)
    | Hole
    | Other

  /** Unicode NFC is not modelled: `nfc` is any test on strings. */
  type NfcTest = JsString -> bool

  predicate IsSafeInteger(n: int) {
    -SAFE_MAX <= n <= SAFE_MAX
  }

  predicate InInt64(n: int) {
    INT64_MIN <= n <= INT64_MAX
  }

  // ----- What is accepted -----

  predicate AcceptsString(s: JsString, nfc: NfcTest) {
    nfc(s) && AllScalar(CodePoints(s))
  }

  predicate Accepts(v: Js, nfc: NfcTest) {
    match v
    case Null => true
    case Boolean(_) => true
    case Number(NegativeZero) => true
    case Number(Whole(n)) => IsSafeInteger(n)
    case Str(s) => AcceptsString(s, nfc)
    case ByteArray(bytes) => AcceptsString(Base64.ToBase64UrlNoPad(bytes), nfc)
    case Int64Literal(_) => true
    case Array(items) => forall i :: 0 <= i < |items| ==> Accepts(items[i], nfc)
    case Object(entries) => AcceptsEntries(entries, nfc)
    case _ => false
  }

  predicate AcceptsEntries(entries: seq<Entry<Js>>, nfc: NfcTest) {
    DistinctKeys(entries) && forall e <- entries :: AcceptsEntry(e, nfc)
  }

  predicate AcceptsEntry(e: Entry<Js>, nfc: NfcTest) {
    AcceptsString(e.key, nfc) && Accepts(e.value, nfc)
  }

  // ----- What is printed -----

  /** The tree whose text the emitter writes; a value that is not accepted has no text, and any tree will do. */
  function ToTree(v: Js): Tree
    decreases v, 0
  {
    match v
    case Boolean(b) => TBool(b)
    case Number(Whole(n)) => TInt(n)
    case Number(Double(text)) => TNum(text)
    case Number(_) => TInt(0)
    case Str(s) => TStr(s)
    case ByteArray(bytes) => TStr(Base64.ToBase64UrlNoPad(bytes))
    case Int64Literal(source) => LiteralTree(source)
    case Array(items) => TArr(ItemTrees(items))
    case Object(entries) => TObj(Sort(EntryTrees(entries)))
    case _ => TNull
  }

  /** The source of a literal is written as it is; if it is the text of a safe integer, that is the integer's tree. */
  function LiteralTree(source: seq<CodePoint>): (t: Tree)
    ensures Print(t) == source
  {
    var d := NumberData(source);
    if d.DInt? && IsSafeInteger(d.n) then TInt(d.n) else TNum(source)
  }

  function ItemTrees(items: seq<Js>): (ts: seq<Tree>)
    ensures |ts| == |items|
    ensures forall i :: 0 <= i < |items| ==> ts[i] == ToTree(items[i])
    decreases items, 1
  {
    seq(|items|, i requires 0 <= i < |items| => ToTree(items[i]))
  }

  function EntryTrees(entries: seq<Entry<Js>>): (ts: seq<Entry<Tree>>)
    ensures |ts| == |entries|
    ensures forall i :: 0 <= i < |entries| ==> ts[i] == Entry(entries[i].key, ToTree(entries[i].value))
    decreases entries, 1
  {
    seq(|entries|, i requires 0 <= i < |entries| => Entry(entries[i].key, ToTree(entries[i].value)))
  }

  function TextOf(v: Js): seq<CodePoint> {
    Print(ToTree(v))
  }

  /** `canonicalize`: the UTF-8 bytes of the text, or nothing where the source throws. */
  function CanonicalBytes(v: Js, nfc: NfcTest): Option<seq<Byte>> {
    if Accepts(v, nfc) then Some(Utf8.Encode(TextOf(v))) else None
  }

  // ----- What a value means -----

  /** Values made of null, booleans, integers, strings, arrays and objects only. */
  predicate Plain(v: Js) {
    match v
    case Null => true
    case Boolean(_) => true
    case Number(NegativeZero) => true
    case Number(Whole(_)) => true
    case Str(_) => true
    case Array(items) => forall i :: 0 <= i < |items| ==> Plain(items[i])
    case Object(entries) => forall i :: 0 <= i < |entries| ==> Plain(entries[i].value)
    case _ => false
  }

  /** The text of a finite number that is not a safe integer. */
  predicate IsDoubleText(text: seq<CodePoint>) {
    IsNumberText(text) && (NumberData(text).DInt? ==> !IsSafeInteger(NumberData(text).n))
  }

  /** JSON values. The keys of an object are distinct, as in every JavaScript object. */
  predicate JsonValue(v: Js) {
    match v
    case Null => true
    case Boolean(_) => true
    case Number(NegativeZero) => true
    case Number(Whole(n)) => IsSafeInteger(n)
    case Number(Double(text)) => IsDoubleText(text)
    case Str(_) => true
    case Array(items) => forall i :: 0 <= i < |items| ==> JsonValue(items[i])
    case Object(entries) => DistinctKeys(entries) && forall i :: 0 <= i < |entries| ==> JsonValue(entries[i].value)
    case _ => false
  }

  /** The value itself, with an object as a mapping, so equal up to key order; -0 counts as 0. What JSON cannot say,
      undefined and numbers that are not finite among it, is absent. */
  function Value(v: Js): Data
    decreases v, 0
  {
    match v
    case Null => DNull
    case Boolean(b) => DBool(b)
    case Number(Whole(n)) => DInt(n)
    case Number(NegativeZero) => DInt(0)
    case Number(Double(text)) => NumberData(text)
    case Str(s) => DStr(s)
    case Array(items) => DArr(ItemValues(items))
    case Object(entries) => DObj(EntryValues(entries))
    case _ => DAbsent
  }

  function ItemValues(items: seq<Js>): (ds: seq<Data>)
    ensures |ds| == |items|
    ensures forall i :: 0 <= i < |items| ==> ds[i] == Value(items[i])
    decreases items, 1
  {
    seq(|items|, i requires 0 <= i < |items| => Value(items[i]))
  }

  function EntryValues(entries: seq<Entry<Js>>): map<JsString, Data>
    decreases entries, |entries|
  {
    if entries == [] then map[]
    else EntryValues(entries[1..])[entries[0].key := Value(entries[0].value)]
  }

  // ----- The emitter -----

  /** `out` is the array of string pieces every emit function pushes onto, joined and read by code point. */
  class Emitter {
    const nfc: NfcTest
    var out: seq<CodePoint>

    constructor (nfc: NfcTest)
      ensures this.nfc == nfc && out == []
    {
      this.nfc := nfc;
      out := [];
    }

    /** `false` stands for the exception the source throws; what was written by then is discarded. */
    method Emit(v: Js) returns (ok: bool)
      modifies this
      ensures ok == Accepts(v, nfc)
      ensures ok ==> out == old(out) + TextOf(v)
      decreases v, 2
    {
      match v {
        case Undefined => return false;
        case Null =>
          out := out + NULL;
          return true;
        case Boolean(b) =>
          out := out + if b then TRUE else FALSE;
          return true;
        case Number(number) =>
          if number.NotFinite? || number.Double? {
            return false;
          }
          var n := if number.NegativeZero? then 0 else number.n;
          if !IsSafeInteger(n) || !InInt64(n) {
            return false;
          }
          out := out + Show(n);
          return true;
        case BigInt(_) => return false;
        case Str(s) => ok := EmitString(s);
        case ByteArray(bytes) => ok := EmitString(Base64.ToBase64UrlNoPad(bytes));
        case DateObject => return false;
        case Int64Literal(source) =>
          out := out + source;
          return true;
        case Array(_) => ok := EmitArray(v);
        case Object(_) => ok := EmitObject(v);
        case Hole => return false;
        case Other => return false;
      }
    }

    method EmitString(s: JsString) returns (ok: bool)
      modifies this
      ensures ok == AcceptsString(s, nfc)
      ensures ok ==> out == old(out) + Quoted(s)
    {
      if !nfc(s) {
        return false;
      }
      var cs := CodePoints(s);
      ghost var goal := old(out) + [QUOTE] + EscapeAll(cs);
      out := out + [QUOTE];
      for i := 0 to |cs|
        invariant forall j :: 0 <= j < i ==> IsScalar(cs[j])
        invariant out + EscapeAll(cs[i..]) == goal
      {
        if !IsScalar(cs[i]) {
          assert cs[i] in cs;
          return false;
        }
        EscapeStep(cs, i);
        Join(out, Escape(cs[i]), EscapeAll(cs[i + 1..]));
        out := out + Escape(cs[i]);
      }
      Regroup(old(out), [QUOTE], EscapeAll(cs), [QUOTE]);
      out := out + [QUOTE];
      return true;
    }

    method EmitArray(v: Js) returns (ok: bool)
      requires v.Array?
      modifies this
      ensures ok == Accepts(v, nfc)
      ensures ok ==> out == old(out) + TextOf(v)
      decreases v, 1
    {
      var items := v.items;
      ghost var trees := ItemTrees(items);
      ghost var goal := old(out) + [OPEN_BRACKET] + PrintItems(trees, 0);
      out := out + [OPEN_BRACKET];
      for i := 0 to |items|
        invariant forall j :: 0 <= j < i ==> Accepts(items[j], nfc)
        invariant out + PrintItems(trees, i) == goal
      {
        if items[i].Hole? {
          return false;
        }
        Regroup(out, Separator(i), TextOf(items[i]), PrintItems(trees, i + 1));
        if i > 0 {
          out := out + [COMMA];
        }
        ok := Emit(items[i]);
        if !ok {
          return false;
        }
      }
      Regroup(old(out), [OPEN_BRACKET], PrintItems(trees, 0), [CLOSE_BRACKET]);
      out := out + [CLOSE_BRACKET];
      return true;
    }

    method EmitObject(v: Js) returns (ok: bool)
      requires v.Object?
      modifies this
      ensures ok == Accepts(v, nfc)
      ensures ok ==> out == old(out) + TextOf(v)
      decreases v, 1
    {
      var entries := Sort(v.entries);
      AcceptsSorted(v, nfc);
      EntryTreesOfSort(v.entries);
      out := out + [OPEN_BRACE];
      ok := EmitEntries(v, entries);
      if ok {
        out := out + [CLOSE_BRACE];
      }
    }

    /** The loop of `emitObject` over the sorted keys. */
    method EmitEntries(v: Js, entries: seq<Entry<Js>>) returns (ok: bool)
      requires v.Object?
      requires forall e <- entries :: e in v.entries
      modifies this
      ensures ok == AcceptsEntries(entries, nfc)
      ensures ok ==> out == old(out) + PrintEntries(EntryTrees(entries), 0)
      decreases v, 0, 1
    {
      ghost var trees := EntryTrees(entries);
      DistinctPairwise(entries);
      var seen: set<JsString> := {};
      for i := 0 to |entries|
        invariant PairwiseDistinct(entries, i)
        invariant forall k :: k in seen <==> exists j :: 0 <= j < i && entries[j].key == k
        invariant forall j :: 0 <= j < i ==> AcceptsEntry(entries[j], nfc)
        invariant out + PrintEntries(trees, i) == old(out) + PrintEntries(trees, 0)
      {
        var e := entries[i];
        assert e in entries;
        if e.key in seen {
          return false;
        }
        seen := seen + {e.key};
        ok := EmitEntry(v, entries, i);
        if !ok {
          return false;
        }
      }
      return true;
    }

    /** One turn of that loop: separator, key, colon, value. */
    method EmitEntry(v: Js, entries: seq<Entry<Js>>, i: nat) returns (ok: bool)
      requires v.Object? && i < |entries| && entries[i] in v.entries
      modifies this
      ensures ok == AcceptsEntry(entries[i], nfc)
      ensures ok ==> out + PrintEntries(EntryTrees(entries), i + 1) == old(out) + PrintEntries(EntryTrees(entries), i)
      decreases v, 0, 0
    {
      var e := entries[i];
      if i > 0 {
        out := out + [COMMA];
      }
      ghost var before := out;
      ok := EmitString(e.key);
      if ok {
        out := out + [COLON];
        var k :| 0 <= k < |v.entries| && v.entries[k] == e;
        ok := Emit(v.entries[k].value);
        Regroup(before, Quoted(e.key), [COLON], TextOf(e.value));
        ghost var trees := EntryTrees(entries);
        Regroup(old(out), Separator(i), PrintEntry(trees[i]), PrintEntries(trees, i + 1));
      }
    }
  }

  lemma Regroup(a: seq<CodePoint>, b: seq<CodePoint>, c: seq<CodePoint>, d: seq<CodePoint>)
    ensures a + (b + c + d) == a + b + c + d
    ensures b == [] ==> a + b == a
  {
  }

  lemma Join(a: seq<CodePoint>, b: seq<CodePoint>, c: seq<CodePoint>)
    ensures a + (b + c) == a + b + c
  {
  }

  lemma AcceptsSorted(v: Js, nfc: NfcTest)
    requires v.Object?
    ensures forall e <- Sort(v.entries) :: e in v.entries
    ensures Accepts(v, nfc) <==> AcceptsEntries(Sort(v.entries), nfc)
  {
    forall e ensures e in Sort(v.entries) <==> e in v.entries {
      SortMember(v.entries, e);
    }
    SortKeepsDistinct(v.entries);
  }

  /** Sorting the entries and printing their values commute: the order looks at keys only. */
  lemma EntryTreesOfSort(es: seq<Entry<Js>>)
    ensures EntryTrees(Sort(es)) == Sort(EntryTrees(es))
  {
    SortRelated(es, EntryTrees(es), (v: Js, t: Tree) => t == ToTree(v));
  }

  /** `canonicalize` writes exactly the canonical bytes, and fails exactly on what is not accepted. */
  method Canonicalize(v: Js, nfc: NfcTest) returns (r: Option<seq<Byte>>)
    ensures r == CanonicalBytes(v, nfc)
  {
    var emitter := new Emitter(nfc);
    var ok := emitter.Emit(v);
    assert [] + TextOf(v) == TextOf(v);
    r := if ok then Some(Utf8.Encode(emitter.out)) else None;
  }
}
