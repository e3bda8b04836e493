/** `sortJsonValue`, and JSON values that are printed with their keys sorted: what can be read back. */
module SortedJson {
  import opened Octets
  import opened Utf16
  import opened World
  import opened Utf8
  import opened Decimal
  import opened Json
  import opened KeySort
  import opened Canonical
  import opened CanonicalProofs

  /** Assigning this property of a plain object sets its prototype and makes no own property. */
  function Proto(): JsString {
    FromText("__proto__")
  }

  // ----- `out[key] = value` -----

  /** The number of an array index, a key that own-property order puts before all others. */
  function ArrayIndex(key: JsString): Option<nat> {
    var r := TakeDigits(key, 0);
    if key != [] && r.rest == [] && key == Digits(r.value) && r.value < 0xFFFF_FFFF then Some(r.value) else None
  }

  predicate IndexBefore(k: JsString, l: JsString)
    requires ArrayIndex(k).Some?
  {
    ArrayIndex(l).None? || ArrayIndex(k).value < ArrayIndex(l).value
  }

  function InsertIndex<V>(es: seq<Entry<V>>, e: Entry<V>): seq<Entry<V>>
    requires ArrayIndex(e.key).Some?
  {
    if es == [] || IndexBefore(e.key, es[0].key) then [e] + es else [es[0]] + InsertIndex(es[1..], e)
  }

  /** The own entries after assigning a key that is not there yet. */
  function Assign<V>(out: seq<Entry<V>>, e: Entry<V>): seq<Entry<V>> {
    if e.key == Proto() then out
    else if ArrayIndex(e.key).Some? then InsertIndex(out, e)
    else out + [e]
  }

  function AssignAll<V>(out: seq<Entry<V>>, es: seq<Entry<V>>): seq<Entry<V>>
    decreases |es|
  {
    if es == [] then out else AssignAll(Assign(out, es[0]), es[1..])
  }

  lemma {:induction false} InsertIndexMap<V>(es: seq<Entry<V>>, e: Entry<V>)
    requires DistinctKeys(es) && e.key !in EntryMap(es) && ArrayIndex(e.key).Some?
    ensures DistinctKeys(InsertIndex(es, e))
    ensures EntryMap(InsertIndex(es, e)) == EntryMap(es)[e.key := e.value]
  {
    var r := InsertIndex(es, e);
    if es == [] || IndexBefore(e.key, es[0].key) {
      assert r[1..] == es;
    } else {
      assert r[1..] == InsertIndex(es[1..], e);
      InsertIndexMap(es[1..], e);
    }
  }

  lemma {:induction false} AppendMap<V>(es: seq<Entry<V>>, e: Entry<V>)
    requires DistinctKeys(es) && e.key !in EntryMap(es)
    ensures DistinctKeys(es + [e])
    ensures EntryMap(es + [e]) == EntryMap(es)[e.key := e.value]
  {
    var r := es + [e];
    if es == [] {
      assert r[1..] == [];
    } else {
      assert r[1..] == es[1..] + [e];
      AppendMap(es[1..], e);
    }
  }

  lemma AssignMap<V>(out: seq<Entry<V>>, e: Entry<V>)
    requires DistinctKeys(out) && e.key !in EntryMap(out)
    ensures DistinctKeys(Assign(out, e))
    ensures EntryMap(Assign(out, e)) == if e.key == Proto() then EntryMap(out) else EntryMap(out)[e.key := e.value]
  {
    if ArrayIndex(e.key).Some? {
      InsertIndexMap(out, e);
    } else {
      AppendMap(out, e);
    }
  }

  /** Assigning distinct new keys one by one adds them all, except for the prototype's. */
  lemma {:induction false} AssignAllMap<V>(out: seq<Entry<V>>, es: seq<Entry<V>>)
    requires DistinctKeys(out) && DistinctKeys(es)
    requires EntryMap(out).Keys !! EntryMap(es).Keys
    ensures DistinctKeys(AssignAll(out, es))
    ensures EntryMap(AssignAll(out, es)) == EntryMap(out) + (EntryMap(es) - {Proto()})
    decreases |es|
  {
    if es != [] {
      var e := es[0];
      assert e.key in EntryMap(es).Keys && EntryMap(es[1..]).Keys <= EntryMap(es).Keys;
      AssignMap(out, e);
      AssignAllMap(Assign(out, e), es[1..]);
      AddStep(EntryMap(out), EntryMap(es[1..]), e.key, e.value);
    }
  }

  lemma AddStep<V>(m: map<JsString, V>, n: map<JsString, V>, k: JsString, v: V)
    requires k !in m && k !in n
    ensures (if k == Proto() then m else m[k := v]) + (n - {Proto()}) == m + (n[k := v] - {Proto()})
  {
  }

  // ----- `sortJsonValue` -----

  function SortJson(v: Js): Js
    decreases v, 0
  {
    match v
    case Array(items) => Array(SortItems(items))
    case Object(entries) => Object(AssignAll([], Sort(SortValues(entries))))
    case _ => v
  }

  function SortItems(items: seq<Js>): (r: seq<Js>)
    ensures |r| == |items|
    ensures forall i :: 0 <= i < |items| ==> r[i] == SortJson(items[i])
    decreases items, 1
  {
    seq(|items|, i requires 0 <= i < |items| => SortJson(items[i]))
  }

  function SortValues(entries: seq<Entry<Js>>): (r: seq<Entry<Js>>)
    ensures |r| == |entries|
    ensures forall i :: 0 <= i < |entries| ==> r[i] == Entry(entries[i].key, SortJson(entries[i].value))
    decreases entries, 1
  {
    seq(|entries|, i requires 0 <= i < |entries| => Entry(entries[i].key, SortJson(entries[i].value)))
  }

  lemma SortValuesOfSort(entries: seq<Entry<Js>>)
    ensures SortValues(Sort(entries)) == Sort(SortValues(entries))
  {
    SortRelated(entries, SortValues(entries), (v: Js, w: Js) => w == SortJson(v));
  }

  method SortJsonValue(v: Js) returns (r: Js)
    ensures r == SortJson(v)
    decreases v
  {
    if v.Array? {
      var items := [];
      for i := 0 to |v.items|
        invariant items == SortItems(v.items)[..i]
      {
        var item := SortJsonValue(v.items[i]);
        items := items + [item];
      }
      return Array(items);
    }
    if v.Object? {
      var keys := Sort(v.entries);
      SortValuesOfSort(v.entries);
      ghost var sorted := SortValues(keys);
      var out := [];
      assert sorted[0..] == sorted;
      for i := 0 to |keys|
        invariant AssignAll(out, sorted[i..]) == AssignAll([], sorted)
      {
        SortMember(v.entries, keys[i]);
        var k :| 0 <= k < |v.entries| && v.entries[k] == keys[i];
        var value := SortJsonValue(v.entries[k].value);
        assert sorted[i..][0] == Entry(keys[i].key, value) && sorted[i..][1..] == sorted[i + 1..];
        out := Assign(out, Entry(keys[i].key, value));
      }
      return Object(out);
    }
    return v;
  }

  // ----- What sorting leaves of a value -----

  /** The data without any entry named `__proto__`, at any depth. */
  function DropProto(d: Data): Data {
    match d
    case DArr(items) => DArr(seq(|items|, i requires 0 <= i < |items| => DropProto(items[i])))
    case DObj(fields) => DObj(map k | k in fields && k != Proto() :: DropProto(fields[k]))
    case _ => d
  }

  function DropProtoFields(fields: map<JsString, Data>): map<JsString, Data> {
    DropProto(DObj(fields)).fields
  }

  predicate HasProto(v: Js) {
    match v
    case Array(items) => exists i :: 0 <= i < |items| && HasProto(items[i])
    case Object(entries) => exists i :: 0 <= i < |entries| && (entries[i].key == Proto() || HasProto(entries[i].value))
    case _ => false
  }

  lemma MapOfSortValues(entries: seq<Entry<Js>>)
    ensures EntryMap(SortValues(entries)) == map k | k in EntryMap(entries) :: SortJson(EntryMap(entries)[k])
    ensures DistinctKeys(SortValues(entries)) <==> DistinctKeys(entries)
  {
    if entries != [] {
      assert SortValues(entries)[1..] == SortValues(entries[1..]);
      MapOfSortValues(entries[1..]);
    }
  }

  lemma SortedObject(entries: seq<Entry<Js>>)
    requires DistinctKeys(entries)
    ensures var out := AssignAll([], Sort(SortValues(entries)));
      && DistinctKeys(out)
      && EntryMap(out) == map k | k in EntryMap(entries) && k != Proto() :: SortJson(EntryMap(entries)[k])
  {
    var values := SortValues(entries);
    MapOfSortValues(entries);
    SortStrict(values);
    StrictlySortedDistinct(Sort(values));
    AssignAllMap([], Sort(values));
  }

  lemma {:induction false} SortJsonMeans(v: Js)
    requires JsonValue(v)
    ensures JsonValue(SortJson(v))
    ensures Value(SortJson(v)) == DropProto(Value(v))
    decreases v
  {
    match v
    case Array(items) =>
      forall i | 0 <= i < |items|
        ensures JsonValue(SortJson(items[i])) && Value(SortJson(items[i])) == DropProto(Value(items[i]))
      {
        SortJsonMeans(items[i]);
      }
      assert Value(SortJson(v)).items == DropProto(Value(v)).items;
    case Object(entries) =>
      forall k | k in EntryMap(entries)
        ensures var w := EntryMap(entries)[k];
          JsonValue(SortJson(w)) && Value(SortJson(w)) == DropProto(Value(w))
      {
        EntryOfMap(entries, k);
        var i :| 0 <= i < |entries| && entries[i] == Entry(k, EntryMap(entries)[k]);
        SortJsonMeans(entries[i].value);
      }
      SortJsonMeansObject(entries);
    case _ =>
  }

  lemma {:induction false} SortJsonMeansObject(entries: seq<Entry<Js>>)
    requires DistinctKeys(entries)
    requires forall k :: k in EntryMap(entries) ==>
      var w := EntryMap(entries)[k]; JsonValue(SortJson(w)) && Value(SortJson(w)) == DropProto(Value(w))
    ensures JsonValue(SortJson(Object(entries)))
    ensures Value(SortJson(Object(entries))) == DropProto(Value(Object(entries)))
  {
    var out := AssignAll([], Sort(SortValues(entries)));
    SortedObject(entries);
    forall i | 0 <= i < |out| ensures JsonValue(out[i].value) {
      MapOfEntry(out, i);
    }
    SortedFields(entries, out);
  }

  lemma {:induction false} SortedFields(entries: seq<Entry<Js>>, out: seq<Entry<Js>>)
    requires EntryMap(out) == map k | k in EntryMap(entries) && k != Proto() :: SortJson(EntryMap(entries)[k])
    requires forall k :: k in EntryMap(entries) ==>
      Value(SortJson(EntryMap(entries)[k])) == DropProto(Value(EntryMap(entries)[k]))
    ensures EntryValues(out) == DropProto(Value(Object(entries))).fields
  {
    MapOfValues(out);
    MapOfValues(entries);
  }

  /** Nothing is dropped exactly when no object inside the value has that key. */
  lemma {:induction false} DropProtoExactly(v: Js)
    requires JsonValue(v)
    ensures DropProto(Value(v)) == Value(v) <==> !HasProto(v)
    decreases v
  {
    match v
    case Array(items) =>
      forall i | 0 <= i < |items| ensures DropProto(Value(items[i])) == Value(items[i]) <==> !HasProto(items[i]) {
        DropProtoExactly(items[i]);
      }
      DropProtoOfItems(items);
    case Object(entries) =>
      forall i | 0 <= i < |entries|
        ensures DropProto(Value(entries[i].value)) == Value(entries[i].value) <==> !HasProto(entries[i].value)
      {
        DropProtoExactly(entries[i].value);
      }
      DropProtoOfEntries(entries);
    case _ =>
  }

  lemma DropProtoOfItems(items: seq<Js>)
    ensures DropProto(Value(Array(items))) == Value(Array(items)) <==>
      forall i :: 0 <= i < |items| ==> DropProto(Value(items[i])) == Value(items[i])
  {
    var kept, all := DropProto(Value(Array(items))).items, ItemValues(items);
    assert |kept| == |all| == |items|;
    assert forall i :: 0 <= i < |items| ==> kept[i] == DropProto(all[i]);
    if kept == all {
      assert forall i :: 0 <= i < |items| ==> kept[i] == all[i];
    }
  }

  predicate KeptWhole(e: Entry<Js>) {
    e.key != Proto() && DropProto(Value(e.value)) == Value(e.value)
  }

  lemma {:induction false} DropProtoOfEntries(entries: seq<Entry<Js>>)
    requires DistinctKeys(entries)
    ensures DropProtoFields(EntryValues(entries)) == EntryValues(entries) <==>
      forall i :: 0 <= i < |entries| ==> KeptWhole(entries[i])
  {
    if entries != [] {
      var tail := entries[1..];
      DropProtoOfEntries(tail);
      MapOfValues(tail);
      KeptStep(EntryValues(tail), entries[0].key, Value(entries[0].value));
      assert forall i :: 1 <= i < |entries| ==> entries[i] == tail[i - 1];
      assert forall i :: 0 <= i < |tail| ==> tail[i] == entries[i + 1];
    }
  }

  lemma KeptStep(m: map<JsString, Data>, k: JsString, d: Data)
    requires k !in m
    ensures DropProtoFields(m[k := d]) == m[k := d] <==>
      k != Proto() && DropProto(d) == d && DropProtoFields(m) == m
  {
    var n := m[k := d];
    if DropProtoFields(n) == n {
      assert k in DropProtoFields(n) && DropProtoFields(n)[k] == d;
      forall l | l in m ensures l in DropProtoFields(m) && DropProtoFields(m)[l] == m[l] {
        assert l in DropProtoFields(n) && DropProtoFields(n)[l] == n[l];
      }
      assert DropProtoFields(m) == m;
    }
    if k != Proto() && DropProto(d) == d && DropProtoFields(m) == m {
      forall l | l in n ensures l in DropProtoFields(n) && DropProtoFields(n)[l] == n[l] {
        assert l != k ==> l in DropProtoFields(m) && DropProtoFields(m)[l] == m[l];
      }
      assert DropProtoFields(n) == n;
    }
  }

  // ----- Printing JSON values -----

  /** The tree `JSON.stringify` prints for a JSON value: its entries as they are listed. */
  function PlainTree(v: Js): Tree
    decreases v, 0
  {
    match v
    case Boolean(b) => TBool(b)
    case Number(Whole(n)) => TInt(n)
    case Number(Double(text)) => TNum(text)
    case Number(_) => TInt(0)
    case Str(s) => TStr(s)
    case Array(items) => TArr(PlainItems(items))
    case Object(entries) => TObj(PlainEntries(entries))
    case _ => TNull
  }

  function PlainItems(items: seq<Js>): (ts: seq<Tree>)
    ensures |ts| == |items|
    ensures forall i :: 0 <= i < |items| ==> ts[i] == PlainTree(items[i])
    decreases items, 1
  {
    seq(|items|, i requires 0 <= i < |items| => PlainTree(items[i]))
  }

  function PlainEntries(entries: seq<Entry<Js>>): (ts: seq<Entry<Tree>>)
    ensures |ts| == |entries|
    ensures forall i :: 0 <= i < |entries| ==> ts[i] == Entry(entries[i].key, PlainTree(entries[i].value))
    decreases entries, 1
  {
    seq(|entries|, i requires 0 <= i < |entries| => Entry(entries[i].key, PlainTree(entries[i].value)))
  }

  function SortedBytes(v: Js): seq<Byte> {
    Utf8.Encode(Print(PlainTree(SortJson(v))))
  }

  lemma {:induction false} PlainTreeMeans(v: Js)
    requires JsonValue(v)
    ensures Decodable(PlainTree(v)) && Meaning(PlainTree(v)) == Value(v)
    decreases v
  {
    match v
    case Array(items) =>
      forall i | 0 <= i < |items|
        ensures Decodable(PlainTree(items[i])) && Meaning(PlainTree(items[i])) == Value(items[i])
      {
        PlainTreeMeans(items[i]);
      }
      assert ItemMeanings(PlainItems(items)) == ItemValues(items);
    case Object(entries) =>
      forall i | 0 <= i < |entries|
        ensures Decodable(PlainTree(entries[i].value))
        ensures Meaning(PlainTree(entries[i].value)) == Value(entries[i].value)
      {
        PlainTreeMeans(entries[i].value);
      }
      PlainEntriesMean(entries);
    case _ =>
  }

  lemma {:induction false} PlainEntriesMean(entries: seq<Entry<Js>>)
    requires forall i :: 0 <= i < |entries| ==> Meaning(PlainTree(entries[i].value)) == Value(entries[i].value)
    ensures EntryMeanings(PlainEntries(entries)) == EntryValues(entries)
    ensures EntryMap(PlainEntries(entries)).Keys == EntryMap(entries).Keys
    ensures DistinctKeys(PlainEntries(entries)) <==> DistinctKeys(entries)
  {
    if entries != [] {
      assert PlainEntries(entries)[1..] == PlainEntries(entries[1..]);
      PlainEntriesMean(entries[1..]);
    }
  }

  /** The bytes of a JSON value read back as that value without its prototype entries. */
  lemma {:induction false} SortedReadBack(v: Js)
    requires JsonValue(v)
    ensures ReadBack(SortedBytes(v)) == Some(DropProto(Value(v)))
  {
    var tree := PlainTree(SortJson(v));
    SortJsonMeans(v);
    PlainTreeMeans(SortJson(v));
    PrintScalar(tree);
    Utf8.DecodeEncode(Print(tree));
    DecodePrint(tree, []);
    assert Print(tree) + [] == Print(tree);
  }

  /** Two JSON values have the same bytes exactly when they agree up to key order and prototype entries. */
  lemma {:induction false} SortedDetermineValue(v: Js, w: Js)
    requires JsonValue(v) && JsonValue(w)
    ensures SortedBytes(v) == SortedBytes(w) <==> DropProto(Value(v)) == DropProto(Value(w))
  {
    SortedReadBack(v);
    SortedReadBack(w);
    if DropProto(Value(v)) == DropProto(Value(w)) {
      SameValueSameSorted(v, w);
    }
  }

  /** Values that agree up to key order and prototype entries print the same tree. */
  lemma {:induction false} SameValueSameSorted(v: Js, w: Js)
    requires JsonValue(v) && JsonValue(w) && DropProto(Value(v)) == DropProto(Value(w))
    ensures PlainTree(SortJson(v)) == PlainTree(SortJson(w))
    decreases v
  {
    match v
    case Array(items) =>
      var a, b := DropProto(Value(v)).items, DropProto(Value(w)).items;
      assert |items| == |a| == |b| == |w.items|;
      forall i | 0 <= i < |items| ensures PlainTree(SortJson(items[i])) == PlainTree(SortJson(w.items[i])) {
        assert a[i] == DropProto(Value(items[i])) && b[i] == DropProto(Value(w.items[i]));
        SameValueSameSorted(items[i], w.items[i]);
      }
      assert PlainItems(SortItems(items)) == PlainItems(SortItems(w.items));
    case Object(entries) =>
      SameDroppedFields(entries, w.entries);
      forall k | k in EntryMap(entries) && k != Proto()
        ensures k in EntryMap(w.entries)
        ensures PlainTree(SortJson(EntryMap(entries)[k])) == PlainTree(SortJson(EntryMap(w.entries)[k]))
      {
        assert k in EntryMap(w.entries).Keys - {Proto()};
        EntryOfMap(entries, k);
        EntryOfMap(w.entries, k);
        var i :| 0 <= i < |entries| && entries[i] == Entry(k, EntryMap(entries)[k]);
        var j :| 0 <= j < |w.entries| && w.entries[j] == Entry(k, EntryMap(w.entries)[k]);
        SameValueSameSorted(entries[i].value, w.entries[j].value);
      }
      SameKeptTrees(entries, w.entries);
      SameMapSameSorted(entries, w.entries);
    case _ =>
  }

  lemma {:induction false} SameDroppedFields(a: seq<Entry<Js>>, b: seq<Entry<Js>>)
    requires DropProto(Value(Object(a))) == DropProto(Value(Object(b)))
    ensures EntryMap(a).Keys - {Proto()} == EntryMap(b).Keys - {Proto()}
    ensures forall k :: k in EntryMap(a) && k != Proto() ==>
      k in EntryMap(b) && DropProto(Value(EntryMap(a)[k])) == DropProto(Value(EntryMap(b)[k]))
  {
    var m, n := DropProto(Value(Object(a))).fields, DropProto(Value(Object(b))).fields;
    assert m == n;
    MapOfValues(a);
    MapOfValues(b);
    assert m.Keys == EntryMap(a).Keys - {Proto()} && n.Keys == EntryMap(b).Keys - {Proto()};
    forall k | k in EntryMap(a) && k != Proto()
      ensures k in EntryMap(b) && DropProto(Value(EntryMap(a)[k])) == DropProto(Value(EntryMap(b)[k]))
    {
      assert k in m && k in n && m[k] == n[k];
    }
  }

  function WithoutProto<V>(es: seq<Entry<V>>): seq<Entry<V>> {
    if es == [] then []
    else if es[0].key == Proto() then WithoutProto(es[1..])
    else [es[0]] + WithoutProto(es[1..])
  }

  lemma {:induction false} WithoutProtoMap<V>(es: seq<Entry<V>>)
    requires DistinctKeys(es)
    ensures EntryMap(WithoutProto(es)) == EntryMap(es) - {Proto()}
  {
    if es != [] {
      WithoutProtoMap(es[1..]);
      if es[0].key != Proto() {
        assert WithoutProto(es)[1..] == WithoutProto(es[1..]);
      }
    }
  }

  lemma {:induction false} WithoutProtoSorted<V>(es: seq<Entry<V>>)
    requires StrictlySorted(es)
    ensures EntryMap(WithoutProto(es)) == EntryMap(es) - {Proto()}
    ensures StrictlySorted(WithoutProto(es))
  {
    StrictlySortedDistinct(es);
    WithoutProtoMap(es);
    if es != [] {
      WithoutProtoSorted(es[1..]);
      if es[0].key != Proto() {
        assert WithoutProto(es)[1..] == WithoutProto(es[1..]);
      }
    }
  }

  lemma {:induction false} AssignWithoutProto<V>(out: seq<Entry<V>>, es: seq<Entry<V>>)
    ensures AssignAll(out, es) == AssignAll(out, WithoutProto(es))
    decreases |es|
  {
    if es != [] {
      AssignWithoutProto(Assign(out, es[0]), es[1..]);
      if es[0].key != Proto() {
        assert WithoutProto(es)[1..] == WithoutProto(es[1..]);
      }
    }
  }

  function TreesOf(entries: seq<Entry<Js>>): (ts: seq<Entry<Tree>>)
    ensures |ts| == |entries|
    ensures forall i :: 0 <= i < |entries| ==> ts[i] == Entry(entries[i].key, PlainTree(SortJson(entries[i].value)))
  {
    PlainEntries(SortValues(entries))
  }

  lemma {:induction false} MapOfTreesOf(entries: seq<Entry<Js>>)
    ensures EntryMap(TreesOf(entries)) == map k | k in EntryMap(entries) :: PlainTree(SortJson(EntryMap(entries)[k]))
    ensures DistinctKeys(TreesOf(entries)) <==> DistinctKeys(entries)
  {
    if entries != [] {
      assert TreesOf(entries)[1..] == TreesOf(entries[1..]);
      MapOfTreesOf(entries[1..]);
    }
  }

  /** Assigning looks at keys only, so it commutes with printing the values. */
  lemma {:induction false} PlainOfAssignAll(out: seq<Entry<Js>>, es: seq<Entry<Js>>)
    ensures PlainEntries(AssignAll(out, es)) == AssignAll(PlainEntries(out), PlainEntries(es))
    decreases |es|
  {
    if es != [] {
      PlainOfAssign(out, es[0]);
      assert PlainEntries(es)[1..] == PlainEntries(es[1..]);
      PlainOfAssignAll(Assign(out, es[0]), es[1..]);
    }
  }

  lemma PlainOfAssign(out: seq<Entry<Js>>, e: Entry<Js>)
    ensures PlainEntries(Assign(out, e)) == Assign(PlainEntries(out), Entry(e.key, PlainTree(e.value)))
  {
    if ArrayIndex(e.key).Some? {
      PlainOfInsertIndex(out, e);
    }
  }

  lemma {:induction false} PlainOfInsertIndex(es: seq<Entry<Js>>, e: Entry<Js>)
    requires ArrayIndex(e.key).Some?
    ensures PlainEntries(InsertIndex(es, e)) == InsertIndex(PlainEntries(es), Entry(e.key, PlainTree(e.value)))
  {
    if es != [] && !IndexBefore(e.key, es[0].key) {
      PlainOfInsertIndex(es[1..], e);
      PlainOfCons(es[0], es[1..]);
      PlainOfCons(es[0], InsertIndex(es[1..], e));
      assert es == [es[0]] + es[1..];
    } else {
      PlainOfCons(e, es);
    }
  }

  lemma PlainOfCons(e: Entry<Js>, es: seq<Entry<Js>>)
    ensures PlainEntries([e] + es) == [Entry(e.key, PlainTree(e.value))] + PlainEntries(es)
  {
  }

  lemma {:induction false} SameMapSameSorted(a: seq<Entry<Js>>, b: seq<Entry<Js>>)
    requires DistinctKeys(a) && DistinctKeys(b)
    requires EntryMap(TreesOf(a)) - {Proto()} == EntryMap(TreesOf(b)) - {Proto()}
    ensures PlainTree(SortJson(Object(a))) == PlainTree(SortJson(Object(b)))
  {
    MapOfTreesOf(a);
    MapOfTreesOf(b);
    SortedTrees(a);
    SortedTrees(b);
    SameKeptSameAssigned(TreesOf(a), TreesOf(b));
  }

  lemma {:induction false} SameKeptTrees(a: seq<Entry<Js>>, b: seq<Entry<Js>>)
    requires EntryMap(a).Keys - {Proto()} == EntryMap(b).Keys - {Proto()}
    requires forall k :: k in EntryMap(a) && k in EntryMap(b) && k != Proto() ==>
      PlainTree(SortJson(EntryMap(a)[k])) == PlainTree(SortJson(EntryMap(b)[k]))
    ensures EntryMap(TreesOf(a)) - {Proto()} == EntryMap(TreesOf(b)) - {Proto()}
  {
    var m, n := EntryMap(TreesOf(a)), EntryMap(TreesOf(b));
    MapOfTreesOf(a);
    MapOfTreesOf(b);
    assert m.Keys == EntryMap(a).Keys && n.Keys == EntryMap(b).Keys;
    SameKeptMap(m, n);
  }

  lemma SameKeptSameAssigned(a: seq<Entry<Tree>>, b: seq<Entry<Tree>>)
    requires DistinctKeys(a) && DistinctKeys(b)
    requires EntryMap(a) - {Proto()} == EntryMap(b) - {Proto()}
    ensures AssignAll([], Sort(a)) == AssignAll([], Sort(b))
  {
    SortStrict(a);
    SortStrict(b);
    WithoutProtoSorted(Sort(a));
    WithoutProtoSorted(Sort(b));
    SortedUnique(WithoutProto(Sort(a)), WithoutProto(Sort(b)));
    AssignWithoutProto([], Sort(a));
    AssignWithoutProto([], Sort(b));
  }

  lemma SameKeptMap(m: map<JsString, Tree>, n: map<JsString, Tree>)
    requires m.Keys - {Proto()} == n.Keys - {Proto()}
    requires forall k :: k in m && k in n && k != Proto() ==> m[k] == n[k]
    ensures m - {Proto()} == n - {Proto()}
  {
    assert (m - {Proto()}).Keys == m.Keys - {Proto()} && (n - {Proto()}).Keys == n.Keys - {Proto()};
  }

  lemma SortedTrees(es: seq<Entry<Js>>)
    ensures PlainTree(SortJson(Object(es))) == TObj(AssignAll([], Sort(TreesOf(es))))
  {
    var values := SortValues(es);
    SortRelated(values, PlainEntries(values), (v: Js, t: Tree) => t == PlainTree(v));
    assert PlainEntries(Sort(values)) == Sort(TreesOf(es));
    PlainOfAssignAll([], Sort(values));
    assert PlainEntries([]) == [];
  }
}
