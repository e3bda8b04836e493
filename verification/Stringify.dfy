/**
 * `canonicalJsonBytes`: what `JSON.stringify` makes of a sorted value, which may hold more than JSON: undefined,
 * functions, holes, numbers that are not finite, bigints.
 */
module Stringify {
  import opened Octets
  import opened Utf16
  import opened World
  import opened Utf8
  import opened Decimal
  import opened Json
  import opened KeySort
  import opened Canonical
  import opened CanonicalProofs
  import opened SortedJson
  import opened JsonKeyOrder

  function ToJson(): JsString {
    FromText("toJSON")
  }

  /** Undefined, functions and symbols: not printed as a property, and null as an item. */
  predicate Vanishes(v: Js) {
    v.Undefined? || v.Other? || v.Hole?
  }

  /** Values without class instances and without a `toJSON` function. */
  predicate PlainObjects(v: Js) {
    match v
    case Number(Whole(n)) => IsSafeInteger(n)
    case Number(Double(text)) => IsDoubleText(text)
    case ByteArray(_) => false
    case DateObject => false
    case Int64Literal(_) => false
    case Array(items) => forall i :: 0 <= i < |items| ==> PlainObjects(items[i])
    case Object(entries) =>
      && DistinctKeys(entries)
      && forall i :: 0 <= i < |entries| ==>
        PlainObjects(entries[i].value) && !(entries[i].key == ToJson() && entries[i].value.Other?)
    case _ => true
  }

  /** The JSON value that `JSON.stringify` prints in place of a value, unless it raises. */
  function Clean(v: Js): Js
    decreases v, 0
  {
    match v
    case Null => Null
    case Boolean(_) => v
    case Number(NotFinite) => Null
    case Number(_) => v
    case Str(_) => v
    case Array(items) => Array(CleanItems(items))
    case Object(entries) => Object(CleanEntries(entries))
    case _ => Null
  }

  function CleanItems(items: seq<Js>): (r: seq<Js>)
    ensures |r| == |items|
    ensures forall i :: 0 <= i < |items| ==> r[i] == Clean(items[i])
    decreases items, 1
  {
    seq(|items|, i requires 0 <= i < |items| => Clean(items[i]))
  }

  function CleanEntries(entries: seq<Entry<Js>>): seq<Entry<Js>>
    decreases entries, |entries|
  {
    if entries == [] then []
    else
      var others := CleanEntries(entries[1..]);
      if Vanishes(entries[0].value) then others else [Entry(entries[0].key, Clean(entries[0].value))] + others
  }

  predicate HasBigInt(v: Js) {
    match v
    case BigInt(_) => true
    case Array(items) => exists i :: 0 <= i < |items| && HasBigInt(items[i])
    case Object(entries) => exists i :: 0 <= i < |entries| && HasBigInt(entries[i].value)
    case _ => false
  }

  /** The tree of the text, if there is one. */
  function PrintedTree(v: Js): Tree {
    PlainTree(Clean(SortJson(v)))
  }

  /** `canonicalJsonBytes`: nothing where it throws, for a bigint or for a value that has no text at all. */
  function JsonBytes(v: Js): Option<seq<Byte>> {
    if HasBigInt(SortJson(v)) || Vanishes(v) then None else Some(Utf8.Encode(Print(PrintedTree(v))))
  }

  method CanonicalJsonBytes(v: Js) returns (bytes: Option<seq<Byte>>)
    requires PlainObjects(v)
    ensures bytes == JsonBytes(v)
  {
    var sorted := SortJsonValue(v);
    if HasBigInt(sorted) || Vanishes(sorted) {
      return None;
    }
    bytes := Some(Utf8.Encode(Print(PlainTree(Clean(sorted)))));
  }

  // ----- Cleaning leaves a JSON value, and may as well come before sorting -----

  lemma {:induction false} CleanMap(es: seq<Entry<Js>>)
    requires DistinctKeys(es)
    ensures DistinctKeys(CleanEntries(es))
    ensures EntryMap(CleanEntries(es)) ==
      map k | k in EntryMap(es) && !Vanishes(EntryMap(es)[k]) :: Clean(EntryMap(es)[k])
  {
    if es != [] {
      CleanMap(es[1..]);
      assert !Vanishes(es[0].value) ==> CleanEntries(es)[1..] == CleanEntries(es[1..]);
    }
  }

  lemma {:induction false} CleanFrom(es: seq<Entry<Js>>, x: Entry<Js>)
    requires x in CleanEntries(es)
    ensures exists i :: 0 <= i < |es| && es[i].key == x.key && x.value == Clean(es[i].value) && !Vanishes(es[i].value)
  {
    if Vanishes(es[0].value) || x != CleanEntries(es)[0] {
      CleanFrom(es[1..], x);
      var i :| 0 <= i < |es| - 1 && es[1..][i].key == x.key && x.value == Clean(es[1..][i].value)
        && !Vanishes(es[1..][i].value);
      assert es[i + 1] == es[1..][i];
    }
  }

  lemma {:induction false} CleanIsJson(v: Js)
    requires PlainObjects(v)
    ensures JsonValue(Clean(v))
    decreases v
  {
    match v
    case Array(items) =>
      forall i | 0 <= i < |items| ensures JsonValue(CleanItems(items)[i]) {
        CleanIsJson(items[i]);
      }
    case Object(entries) =>
      var kept := CleanEntries(entries);
      CleanMap(entries);
      forall j | 0 <= j < |kept| ensures JsonValue(kept[j].value) {
        CleanFrom(entries, kept[j]);
        var i :| 0 <= i < |entries| && kept[j].value == Clean(entries[i].value);
        CleanIsJson(entries[i].value);
      }
    case _ =>
  }

  lemma {:induction false} CleanInOwnOrder(es: seq<Entry<Js>>)
    requires InOwnOrder(es)
    ensures InOwnOrder(CleanEntries(es))
  {
    if es != [] {
      CleanInOwnOrder(es[1..]);
      forall x | x in CleanEntries(es[1..]) ensures Precedes(es[0].key, x.key) {
        CleanFrom(es[1..], x);
        var i :| 0 <= i < |es| - 1 && es[1..][i].key == x.key;
        assert Precedes(es[0].key, es[i + 1].key);
      }
      OrderedCons(Entry(es[0].key, Clean(es[0].value)), CleanEntries(es[1..]));
    }
  }

  lemma NonEmptyMap(es: seq<Entry<Js>>)
    ensures es != [] <==> EntryMap(es) != map[]
  {
    if es != [] {
      assert es[0].key in EntryMap(es);
    }
  }

  lemma SameFirst(a: seq<Entry<Js>>, b: seq<Entry<Js>>)
    requires InOwnOrder(a) && InOwnOrder(b) && DistinctKeys(a) && DistinctKeys(b)
    requires EntryMap(a) == EntryMap(b) && a != [] && b != []
    ensures a[0] == b[0]
  {
    assert a[0].key in EntryMap(a) && b[0].key in EntryMap(b);
    EntryOfMap(a, b[0].key);
    EntryOfMap(b, a[0].key);
    var i :| 0 <= i < |a| && a[i] == Entry(b[0].key, EntryMap(a)[b[0].key]);
    var j :| 0 <= j < |b| && b[j] == Entry(a[0].key, EntryMap(b)[a[0].key]);
    if a[0].key != b[0].key {
      assert Precedes(a[0].key, a[i].key) && Precedes(b[0].key, b[j].key);
      PrecedesEither(a[0].key, b[0].key);
    }
  }

  /** One list in own order exists for each mapping. */
  lemma {:induction false} OwnOrderUnique(a: seq<Entry<Js>>, b: seq<Entry<Js>>)
    requires InOwnOrder(a) && InOwnOrder(b) && DistinctKeys(a) && DistinctKeys(b)
    requires EntryMap(a) == EntryMap(b)
    ensures a == b
  {
    NonEmptyMap(a);
    NonEmptyMap(b);
    if a != [] {
      SameFirst(a, b);
      assert EntryMap(a[1..]) == EntryMap(a) - {a[0].key} && EntryMap(b[1..]) == EntryMap(b) - {b[0].key};
      OwnOrderUnique(a[1..], b[1..]);
      assert a == [a[0]] + a[1..] && b == [b[0]] + b[1..];
    }
  }

  lemma VanishesSorted(v: Js)
    ensures Vanishes(SortJson(v)) <==> Vanishes(v)
  {
  }

  /** What is not printed may be left out before the keys are sorted. */
  lemma {:induction false} CleanOfSorted(v: Js)
    requires PlainObjects(v)
    ensures Clean(SortJson(v)) == SortJson(Clean(v))
    decreases v
  {
    match v
    case Array(items) =>
      forall i | 0 <= i < |items| ensures Clean(SortItems(items)[i]) == SortJson(CleanItems(items)[i]) {
        CleanOfSorted(items[i]);
      }
      assert CleanItems(SortItems(items)) == SortItems(CleanItems(items));
    case Object(entries) =>
      forall k | k in EntryMap(entries)
        ensures Clean(SortJson(EntryMap(entries)[k])) == SortJson(Clean(EntryMap(entries)[k]))
      {
        EntryOfMap(entries, k);
        var i :| 0 <= i < |entries| && entries[i] == Entry(k, EntryMap(entries)[k]);
        CleanOfSorted(entries[i].value);
      }
      CleanOfSortedObject(entries);
    case _ =>
  }

  /** Sorting and then cleaning the values of a mapping, or the other way round. */
  lemma SameMaps(m: map<JsString, Js>, sorted: map<JsString, Js>, a: map<JsString, Js>, cleaned: map<JsString, Js>,
          b: map<JsString, Js>)
    requires forall k :: k in m ==> Clean(SortJson(m[k])) == SortJson(Clean(m[k]))
    requires sorted == map k | k in m && k != Proto() :: SortJson(m[k])
    requires a == map k | k in sorted && !Vanishes(sorted[k]) :: Clean(sorted[k])
    requires cleaned == map k | k in m && !Vanishes(m[k]) :: Clean(m[k])
    requires b == map k | k in cleaned && k != Proto() :: SortJson(cleaned[k])
    ensures a == b
  {
    forall k ensures k in a <==> k in b {
      if k in m {
        VanishesSorted(m[k]);
      }
    }
    forall k | k in a ensures a[k] == b[k] {
      assert k in m && a[k] == Clean(SortJson(m[k]));
    }
  }

  lemma {:induction false} CleanOfSortedObject(entries: seq<Entry<Js>>)
    requires DistinctKeys(entries)
    requires forall k :: k in EntryMap(entries) ==>
      Clean(SortJson(EntryMap(entries)[k])) == SortJson(Clean(EntryMap(entries)[k]))
    ensures Clean(SortJson(Object(entries))) == SortJson(Clean(Object(entries)))
  {
    var out, kept := SortJson(Object(entries)).entries, CleanEntries(entries);
    var after := SortJson(Object(kept)).entries;
    SortedObject(entries);
    CleanMap(entries);
    SortedObject(kept);
    CleanMap(out);
    SortedKeysInOwnOrder(entries);
    SortedKeysInOwnOrder(kept);
    CleanInOwnOrder(out);
    SameMaps(EntryMap(entries), EntryMap(out), EntryMap(CleanEntries(out)), EntryMap(kept), EntryMap(after));
    OwnOrderUnique(CleanEntries(out), after);
  }

  // ----- What is printed -----

  /** What of a value is in its text: a JSON value, without prototype entries. */
  function Kept(v: Js): Data {
    DropProto(Value(Clean(v)))
  }

  /** What has no text of its own, undefined or a function, counts as null here. */
  lemma KeptScalars(v: Js)
    ensures v.Null? || v == Number(NotFinite) || v.Undefined? || v.Other? || v.Hole? ==> Kept(v) == DNull
    ensures v.Boolean? ==> Kept(v) == DBool(v.b)
    ensures v.Str? ==> Kept(v) == DStr(v.s)
    ensures v.Number? && v.n.Whole? ==> Kept(v) == DInt(v.n.n)
    ensures v == Number(NegativeZero) ==> Kept(v) == DInt(0)
    ensures v.Number? && v.n.Double? ==> Kept(v) == NumberData(v.n.text)
  {
  }

  /** Of an array each item is kept, as null if it has no text. */
  lemma KeptItems(items: seq<Js>)
    ensures Kept(Array(items)).DArr? && |Kept(Array(items)).items| == |items|
    ensures forall i :: 0 <= i < |items| ==> Kept(Array(items)).items[i] == Kept(items[i])
  {
    var values := ItemValues(CleanItems(items));
    assert Value(Clean(Array(items))) == DArr(values);
  }

  /** Of an object each property is kept but those without a text and those named `__proto__`. */
  lemma KeptProperties(entries: seq<Entry<Js>>, k: JsString)
    requires DistinctKeys(entries)
    ensures var kept, own := Kept(Object(entries)), EntryMap(entries);
      && kept.DObj?
      && (k in kept.fields <==>
            k in own && !own[k].Undefined? && !own[k].Other? && !own[k].Hole? && k != FromText("__proto__"))
      && (k in kept.fields ==> kept.fields[k] == Kept(own[k]))
  {
    CleanMap(entries);
    var clean := CleanEntries(entries);
    MapOfValues(clean);
    assert Value(Clean(Object(entries))) == DObj(EntryValues(clean));
  }

  /** A bigint that is not below a prototype entry, which sorting drops. */
  predicate KeepsBigInt(v: Js) {
    match v
    case BigInt(_) => true
    case Array(items) => exists i :: 0 <= i < |items| && KeepsBigInt(items[i])
    case Object(entries) =>
      exists i :: 0 <= i < |entries| && entries[i].key != Proto() && KeepsBigInt(entries[i].value)
    case _ => false
  }

  lemma {:induction false} SortedHasBigInt(v: Js)
    requires PlainObjects(v)
    ensures HasBigInt(SortJson(v)) <==> KeepsBigInt(v)
    decreases v
  {
    match v
    case Array(items) =>
      forall i | 0 <= i < |items| ensures HasBigInt(SortItems(items)[i]) <==> KeepsBigInt(items[i]) {
        SortedHasBigInt(items[i]);
      }
    case Object(entries) =>
      forall i | 0 <= i < |entries| ensures HasBigInt(SortJson(entries[i].value)) <==> KeepsBigInt(entries[i].value) {
        SortedHasBigInt(entries[i].value);
      }
      ListedBigInts(entries);
    case _ =>
  }

  lemma {:induction false} ListedBigInts(entries: seq<Entry<Js>>)
    requires DistinctKeys(entries)
    ensures HasBigInt(SortJson(Object(entries))) <==>
      exists i :: 0 <= i < |entries| && entries[i].key != Proto() && HasBigInt(SortJson(entries[i].value))
  {
    var out := SortJson(Object(entries)).entries;
    if HasBigInt(SortJson(Object(entries))) {
      var i :| 0 <= i < |out| && HasBigInt(out[i].value);
      var j := ListedFrom(entries, i);
      assert HasBigInt(SortJson(entries[j].value));
    }
    forall i | 0 <= i < |entries| && entries[i].key != Proto() && HasBigInt(SortJson(entries[i].value))
      ensures HasBigInt(SortJson(Object(entries)))
    {
      var j := KeptIsListed(entries, i);
      assert HasBigInt(out[j].value);
    }
  }

  /** A value has bytes exactly when it has a text and no bigint is printed; those read back as what of it is kept. */
  lemma {:induction false} JsonBytesReadBack(v: Js)
    requires PlainObjects(v)
    ensures JsonBytes(v).Some? <==> !Vanishes(v) && !KeepsBigInt(v)
    ensures JsonBytes(v).Some? ==> ReadBack(JsonBytes(v).value) == Some(Kept(v))
  {
    SortedHasBigInt(v);
    CleanOfSorted(v);
    CleanIsJson(v);
    SortedReadBack(Clean(v));
  }

  /** Two values that have bytes have the same ones exactly when the same is kept of both. */
  lemma {:induction false} JsonBytesDetermineValue(v: Js, w: Js)
    requires PlainObjects(v) && PlainObjects(w) && JsonBytes(v).Some? && JsonBytes(w).Some?
    ensures JsonBytes(v) == JsonBytes(w) <==> Kept(v) == Kept(w)
  {
    CleanOfSorted(v);
    CleanOfSorted(w);
    CleanIsJson(v);
    CleanIsJson(w);
    SortedDetermineValue(Clean(v), Clean(w));
  }

  /** The text is in the order of RFC 8785 at every depth exactly when no two printed keys of an object disagree. */
  lemma {:induction false} PrintedAsRfc8785Exactly(v: Js)
    requires PlainObjects(v)
    ensures AscendsThroughout(Clean(SortJson(v))) <==> AgreesThroughout(Clean(v))
  {
    CleanOfSorted(v);
    CleanIsJson(v);
    SortedAsRfc8785Exactly(Clean(v));
  }

  // ----- When all of a value is kept -----

  /** JSON data that has no entry named `__proto__`. */
  predicate JsonData(d: Data) {
    match d
    case DAbsent => false
    case DArr(items) => forall i :: 0 <= i < |items| ==> JsonData(items[i])
    case DObj(fields) => Proto() !in fields && forall k :: k in fields ==> JsonData(fields[k])
    case _ => true
  }

  /** Only JSON, no prototype entry, at any depth. */
  predicate AllJson(v: Js) {
    JsonValue(v) && !HasProto(v)
  }

  lemma {:induction false} KeptIsJsonData(w: Js)
    requires JsonValue(w)
    ensures JsonData(DropProto(Value(w)))
    decreases w
  {
    match w
    case Array(items) =>
      var kept := DropProto(Value(w)).items;
      forall i | 0 <= i < |kept| ensures JsonData(kept[i]) {
        KeptIsJsonData(items[i]);
      }
    case Object(entries) =>
      MapOfValues(entries);
      var kept := DropProto(Value(w)).fields;
      forall k | k in kept ensures JsonData(kept[k]) {
        EntryOfMap(entries, k);
        var i :| 0 <= i < |entries| && entries[i] == Entry(k, EntryMap(entries)[k]);
        KeptIsJsonData(entries[i].value);
      }
    case _ =>
  }

  lemma {:induction false} JsonDataAllJson(v: Js)
    requires PlainObjects(v) && JsonData(Value(v))
    ensures AllJson(v)
    decreases v
  {
    match v
    case Array(items) =>
      forall i | 0 <= i < |items| ensures AllJson(items[i]) {
        assert Value(v).items[i] == Value(items[i]);
        JsonDataAllJson(items[i]);
      }
    case Object(entries) =>
      MapOfValues(entries);
      forall i | 0 <= i < |entries| ensures AllJson(entries[i].value) && entries[i].key != Proto() {
        MapOfEntry(entries, i);
        assert entries[i].key in Value(v).fields;
        JsonDataAllJson(entries[i].value);
      }
    case _ =>
  }

  lemma {:induction false} CleanOfJson(v: Js)
    requires JsonValue(v)
    ensures Clean(v) == v
    decreases v
  {
    match v
    case Array(items) =>
      forall i | 0 <= i < |items| ensures CleanItems(items)[i] == items[i] {
        CleanOfJson(items[i]);
      }
      assert CleanItems(items) == items;
    case Object(entries) =>
      forall i | 0 <= i < |entries| ensures Clean(entries[i].value) == entries[i].value && !Vanishes(entries[i].value) {
        CleanOfJson(entries[i].value);
      }
      CleanWhole(entries);
    case _ =>
  }

  lemma {:induction false} CleanWhole(entries: seq<Entry<Js>>)
    requires forall i :: 0 <= i < |entries| ==>
      Clean(entries[i].value) == entries[i].value && !Vanishes(entries[i].value)
    ensures CleanEntries(entries) == entries
  {
    if entries != [] {
      assert forall i :: 0 <= i < |entries| - 1 ==> entries[1..][i] == entries[i + 1];
      CleanWhole(entries[1..]);
      assert entries == [entries[0]] + entries[1..];
    }
  }

  /** All of a value is kept, up to key order, exactly when it is JSON without prototype entries. */
  lemma {:induction false} AllKeptExactly(v: Js)
    requires PlainObjects(v)
    ensures Kept(v) == Value(v) <==> AllJson(v)
  {
    CleanIsJson(v);
    KeptIsJsonData(Clean(v));
    if Kept(v) == Value(v) {
      JsonDataAllJson(v);
    }
    if AllJson(v) {
      CleanOfJson(v);
      DropProtoExactly(v);
    }
  }
}
