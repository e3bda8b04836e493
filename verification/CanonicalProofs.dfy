/** The canonical bytes of a plain value determine it, and are determined by it, up to key order. */
module CanonicalProofs {
  import opened Octets
  import opened Utf16
  import opened World
  import opened Utf8
  import opened Decimal
  import opened Json
  import opened KeySort
  import opened Canonical
  import Base64

  // ----- Reading canonical bytes back -----

  /** A reader of canonical bytes: UTF-8, then one JSON value and nothing after it. */
  function ReadBack(bytes: seq<Byte>): Option<Data> {
    var text := Utf8.Decode(bytes);
    if text.NotUtf8? then None
    else
      var parsed := DecodeValue(text.cs);
      if parsed.Fail? || parsed.rest != [] then None else Some(parsed.value)
  }

  lemma {:induction false} MapOfMeanings(es: seq<Entry<Tree>>)
    ensures EntryMeanings(es) == map k | k in EntryMap(es) :: Meaning(EntryMap(es)[k])
  {
    if es != [] {
      MapOfMeanings(es[1..]);
    }
  }

  lemma {:induction false} MapOfTrees(es: seq<Entry<Js>>)
    ensures EntryMap(EntryTrees(es)) == map k | k in EntryMap(es) :: ToTree(EntryMap(es)[k])
    ensures DistinctKeys(EntryTrees(es)) <==> DistinctKeys(es)
  {
    if es != [] {
      assert EntryTrees(es)[1..] == EntryTrees(es[1..]);
      MapOfTrees(es[1..]);
    }
  }

  lemma {:induction false} MapOfValues(es: seq<Entry<Js>>)
    ensures EntryValues(es) == map k | k in EntryMap(es) :: Value(EntryMap(es)[k])
  {
    if es != [] {
      MapOfValues(es[1..]);
    }
  }

  /** An accepted plain value is a JSON value. */
  lemma {:induction false} PlainIsJson(v: Js, nfc: NfcTest)
    requires Accepts(v, nfc) && Plain(v)
    ensures JsonValue(v)
    decreases v
  {
    match v
    case Array(items) =>
      forall i | 0 <= i < |items| ensures JsonValue(items[i]) {
        PlainIsJson(items[i], nfc);
      }
    case Object(entries) =>
      forall i | 0 <= i < |entries| ensures JsonValue(entries[i].value) {
        assert AcceptsEntry(entries[i], nfc);
        PlainIsJson(entries[i].value, nfc);
      }
    case _ =>
  }

  /** The printed tree of a JSON value can be decoded, and means that value. */
  lemma {:induction false} TreeMeansValue(v: Js)
    requires JsonValue(v)
    ensures Decodable(ToTree(v))
    ensures Meaning(ToTree(v)) == Value(v)
    decreases v
  {
    match v
    case Array(items) =>
      forall i | 0 <= i < |items| ensures Decodable(ToTree(items[i])) && Meaning(ToTree(items[i])) == Value(items[i]) {
        TreeMeansValue(items[i]);
      }
      assert ItemMeanings(ItemTrees(items)) == ItemValues(items);
    case Object(entries) =>
      forall e | e in entries ensures Decodable(ToTree(e.value)) && Meaning(ToTree(e.value)) == Value(e.value) {
        var i :| 0 <= i < |entries| && entries[i] == e;
        TreeMeansValue(entries[i].value);
      }
      SortedTreeMeans(entries);
    case _ =>
  }

  lemma SortedTreeMeans(entries: seq<Entry<Js>>)
    requires DistinctKeys(entries)
    requires forall e <- entries :: Decodable(ToTree(e.value)) && Meaning(ToTree(e.value)) == Value(e.value)
    ensures Decodable(TObj(Sort(EntryTrees(entries))))
    ensures EntryMeanings(Sort(EntryTrees(entries))) == EntryValues(entries)
  {
    MapOfTrees(entries);
    SortStrict(EntryTrees(entries));
    StrictlySortedDistinct(Sort(EntryTrees(entries)));
    SortedTreesDecodable(entries);
    forall k | k in EntryMap(entries) ensures Meaning(ToTree(EntryMap(entries)[k])) == Value(EntryMap(entries)[k]) {
      EntryOfMap(entries, k);
    }
    SortedMeanings(entries);
  }

  lemma SortedTreesDecodable(entries: seq<Entry<Js>>)
    requires forall e <- entries :: Decodable(ToTree(e.value))
    ensures forall e <- Sort(EntryTrees(entries)) :: Decodable(e.value)
  {
    var trees := EntryTrees(entries);
    forall e | e in Sort(trees) ensures Decodable(e.value) {
      SortMember(trees, e);
      var j :| 0 <= j < |trees| && trees[j] == e;
      assert entries[j] in entries;
    }
  }

  lemma SortedMeanings(entries: seq<Entry<Js>>)
    requires EntryMap(Sort(EntryTrees(entries))) == EntryMap(EntryTrees(entries))
    requires forall k :: k in EntryMap(entries) ==> Meaning(ToTree(EntryMap(entries)[k])) == Value(EntryMap(entries)[k])
    ensures EntryMeanings(Sort(EntryTrees(entries))) == EntryValues(entries)
  {
    MapOfMeanings(Sort(EntryTrees(entries)));
    MapOfTrees(entries);
    MapOfValues(entries);
  }

  /**
   * Every value's text is self-delimiting: in front of any following text it is read back whole.
   * Only a number depends on what follows, which must not be what a number may go on with.
   */
  lemma TextSelfDelimiting(v: Js, nfc: NfcTest, rest: seq<CodePoint>)
    requires Accepts(v, nfc) && Plain(v)
    requires v.Number? ==> EndsNumberText(rest)
    ensures DecodeValue(TextOf(v) + rest) == Done(Value(v), rest)
  {
    PlainIsJson(v, nfc);
    TreeMeansValue(v);
    DecodePrint(ToTree(v), rest);
  }

  // ----- The text can be written as UTF-8 without replacement -----

  lemma {:induction false} EscapedScalar(cs: seq<CodePoint>)
    ensures AllScalar(EscapeAll(cs))
  {
    if cs != [] {
      EscapedScalar(cs[1..]);
    }
  }

  lemma {:induction false} PrintScalar(t: Tree)
    requires Decodable(t)
    ensures AllScalar(Print(t))
    decreases t, 0
  {
    match t
    case TInt(n) => ShowIsNumber(n);
    case TStr(s) => EscapedScalar(CodePoints(s));
    case TArr(items) => PrintItemsScalar(items, 0);
    case TObj(entries) => PrintEntriesScalar(entries, 0);
    case _ =>
  }

  lemma {:induction false} PrintItemsScalar(items: seq<Tree>, i: nat)
    requires forall j :: 0 <= j < |items| ==> Decodable(items[j])
    ensures AllScalar(PrintItems(items, i))
    decreases items, |items| - i
  {
    if i < |items| {
      PrintScalar(items[i]);
      PrintItemsScalar(items, i + 1);
    }
  }

  lemma {:induction false} PrintEntriesScalar(entries: seq<Entry<Tree>>, i: nat)
    requires forall j :: 0 <= j < |entries| ==> Decodable(entries[j].value)
    ensures AllScalar(PrintEntries(entries, i))
    decreases entries, |entries| - i
  {
    if i < |entries| {
      EscapedScalar(CodePoints(entries[i].key));
      PrintScalar(entries[i].value);
      PrintEntriesScalar(entries, i + 1);
    }
  }

  lemma {:induction false} TreeReadBack(t: Tree)
    requires Decodable(t)
    ensures ReadBack(Utf8.Encode(Print(t))) == Some(Meaning(t))
  {
    PrintScalar(t);
    Utf8.DecodeEncode(Print(t));
    DecodePrint(t, []);
    assert Print(t) + [] == Print(t);
  }

  /** The bytes of an accepted plain value read back as that value. */
  lemma CanonicalRoundTrip(v: Js, nfc: NfcTest)
    requires Accepts(v, nfc) && Plain(v)
    ensures ReadBack(CanonicalBytes(v, nfc).value) == Some(Value(v))
  {
    PlainIsJson(v, nfc);
    TreeMeansValue(v);
    TreeReadBack(ToTree(v));
  }

  // ----- Key order does not matter -----

  /** JSON values that mean the same print the same tree: the sorted list of entries is unique. */
  lemma {:induction false} SameValueSameTree(v: Js, w: Js)
    requires JsonValue(v) && JsonValue(w) && Value(v) == Value(w)
    ensures ToTree(v) == ToTree(w)
    decreases v
  {
    match v
    case Array(items) =>
      assert ItemValues(items) == ItemValues(w.items);
      forall i | 0 <= i < |items| ensures ToTree(items[i]) == ToTree(w.items[i]) {
        assert ItemValues(items)[i] == ItemValues(w.items)[i];
        SameValueSameTree(items[i], w.items[i]);
      }
      assert ItemTrees(items) == ItemTrees(w.items);
    case Object(entries) =>
      MapOfValues(entries);
      MapOfValues(w.entries);
      assert EntryValues(entries) == EntryValues(w.entries);
      forall k | k in EntryMap(entries)
        ensures k in EntryMap(w.entries) && ToTree(EntryMap(entries)[k]) == ToTree(EntryMap(w.entries)[k])
      {
        assert k in EntryValues(entries);
        EntryOfMap(entries, k);
        EntryOfMap(w.entries, k);
        var i :| 0 <= i < |entries| && entries[i] == Entry(k, EntryMap(entries)[k]);
        var j :| 0 <= j < |w.entries| && w.entries[j] == Entry(k, EntryMap(w.entries)[k]);
        assert EntryValues(entries)[k] == EntryValues(w.entries)[k];
        SameValueSameTree(entries[i].value, w.entries[j].value);
      }
      SameMapSameTree(entries, w.entries);
    case _ =>
  }

  lemma {:induction false} SameMapSameTree(a: seq<Entry<Js>>, b: seq<Entry<Js>>)
    requires DistinctKeys(a) && DistinctKeys(b) && EntryValues(a) == EntryValues(b)
    requires forall k :: k in EntryMap(a) && k in EntryMap(b) ==> ToTree(EntryMap(a)[k]) == ToTree(EntryMap(b)[k])
    ensures ToTree(Object(a)) == ToTree(Object(b))
  {
    SameValueKeys(a, b);
    MapOfTrees(a);
    MapOfTrees(b);
    assert EntryMap(EntryTrees(a)) == EntryMap(EntryTrees(b));
    SortOfSameMap(EntryTrees(a), EntryTrees(b));
  }

  lemma SameValueKeys(a: seq<Entry<Js>>, b: seq<Entry<Js>>)
    requires EntryValues(a) == EntryValues(b)
    ensures EntryMap(a).Keys == EntryMap(b).Keys
  {
    MapOfValues(a);
    MapOfValues(b);
    assert EntryMap(a).Keys == EntryValues(a).Keys == EntryValues(b).Keys == EntryMap(b).Keys;
  }

  /**
   * The canonical bytes of two accepted plain values are equal exactly when the values are equal up to
   * the insertion order of object keys, at every depth.
   */
  lemma {:induction false} CanonicalBytesDetermineValue(v: Js, w: Js, nfc: NfcTest)
    requires Accepts(v, nfc) && Plain(v) && Accepts(w, nfc) && Plain(w)
    ensures CanonicalBytes(v, nfc) == CanonicalBytes(w, nfc) <==> Value(v) == Value(w)
  {
    PlainIsJson(v, nfc);
    PlainIsJson(w, nfc);
    if Value(v) == Value(w) {
      SameValueSameTree(v, w);
    }
    CanonicalRoundTrip(v, nfc);
    CanonicalRoundTrip(w, nfc);
  }

  lemma PermutedKeys(a: seq<Entry<Js>>, b: seq<Entry<Js>>)
    requires multiset(a) == multiset(b)
    ensures forall e :: e in a <==> e in b
    ensures EntryMap(a).Keys == EntryMap(b).Keys
    ensures DistinctKeys(a) <==> DistinctKeys(b)
  {
    forall e ensures e in a <==> e in b {
      assert e in multiset(a) <==> e in multiset(b);
    }
    forall k ensures k in EntryMap(a).Keys <==> k in EntryMap(b).Keys {
      KeysFromElements(a, k);
      KeysFromElements(b, k);
    }
    assert |a| == |multiset(a)| == |b|;
    DistinctByCount(a);
    DistinctByCount(b);
  }

  lemma {:induction false} PermutedTrees(a: seq<Entry<Js>>, b: seq<Entry<Js>>)
    requires DistinctKeys(a) && DistinctKeys(b)
    requires EntryMap(a).Keys == EntryMap(b).Keys
    requires forall e <- b :: e in a
    ensures ToTree(Object(a)) == ToTree(Object(b))
  {
    forall k | k in EntryMap(a) ensures EntryMap(a)[k] == EntryMap(b)[k] {
      EntryOfMap(a, k);
      EntryOfMap(b, k);
      UniqueEntry(a, Entry(k, EntryMap(a)[k]), Entry(k, EntryMap(b)[k]));
    }
    MapOfTrees(a);
    MapOfTrees(b);
    SortOfSameMap(EntryTrees(a), EntryTrees(b));
  }

  /** A reordering of an object's keys is accepted with it and prints the same bytes. */
  lemma KeyOrderIrrelevant(a: seq<Entry<Js>>, b: seq<Entry<Js>>, nfc: NfcTest)
    requires multiset(a) == multiset(b)
    ensures CanonicalBytes(Object(a), nfc) == CanonicalBytes(Object(b), nfc)
  {
    PermutedKeys(a, b);
    assert AcceptsEntries(a, nfc) <==> AcceptsEntries(b, nfc);
    if DistinctKeys(a) {
      PermutedTrees(a, b);
    }
  }

  /**
   * Two values that differ at most in the order of object keys, at any depth: arrays item by item, objects with
   * the same distinct keys whose values differ at most so, anything else equal.
   */
  ghost predicate Reordered(v: Js, w: Js)
    decreases v
  {
    if v.Array? && w.Array? then
      |v.items| == |w.items| && forall i :: 0 <= i < |v.items| ==> Reordered(v.items[i], w.items[i])
    else if v.Object? && w.Object? then
      && DistinctKeys(v.entries) && DistinctKeys(w.entries)
      && EntryMap(v.entries).Keys == EntryMap(w.entries).Keys
      && forall i, j :: 0 <= i < |v.entries| && 0 <= j < |w.entries| && v.entries[i].key == w.entries[j].key ==>
           Reordered(v.entries[i].value, w.entries[j].value)
    else v == w
  }

  /** The entry of a key that both objects have, in each of them. */
  lemma {:induction false} EntriesOfKey(a: seq<Entry<Js>>, b: seq<Entry<Js>>, k: JsString) returns (i: nat, j: nat)
    requires k in EntryMap(a) && EntryMap(a).Keys == EntryMap(b).Keys
    ensures i < |a| && a[i] == Entry(k, EntryMap(a)[k])
    ensures j < |b| && b[j] == Entry(k, EntryMap(b)[k])
  {
    assert k in EntryMap(b).Keys;
    EntryOfMap(a, k);
    EntryOfMap(b, k);
    i :| 0 <= i < |a| && a[i] == Entry(k, EntryMap(a)[k]);
    j :| 0 <= j < |b| && b[j] == Entry(k, EntryMap(b)[k]);
  }

  /** Acceptance of an object with distinct keys goes key by key. */
  lemma {:induction false} AcceptsByKey(es: seq<Entry<Js>>, nfc: NfcTest)
    requires DistinctKeys(es)
    ensures Accepts(Object(es), nfc) <==>
      forall k :: k in EntryMap(es) ==> AcceptsString(k, nfc) && Accepts(EntryMap(es)[k], nfc)
  {
    if Accepts(Object(es), nfc) {
      forall k | k in EntryMap(es) ensures AcceptsString(k, nfc) && Accepts(EntryMap(es)[k], nfc) {
        EntryOfMap(es, k);
        assert AcceptsEntry(Entry(k, EntryMap(es)[k]), nfc);
      }
    }
    if forall k :: k in EntryMap(es) ==> AcceptsString(k, nfc) && Accepts(EntryMap(es)[k], nfc) {
      forall e | e in es ensures AcceptsEntry(e, nfc) {
        var i :| 0 <= i < |es| && es[i] == e;
        MapOfEntry(es, i);
      }
    }
  }

  lemma {:induction false} ReorderedAlike(v: Js, w: Js, nfc: NfcTest)
    requires Reordered(v, w)
    ensures Accepts(v, nfc) <==> Accepts(w, nfc)
    ensures ToTree(v) == ToTree(w)
    decreases v
  {
    if v.Array? && w.Array? {
      forall i | 0 <= i < |v.items|
        ensures (Accepts(v.items[i], nfc) <==> Accepts(w.items[i], nfc)) && ToTree(v.items[i]) == ToTree(w.items[i])
      {
        ReorderedAlike(v.items[i], w.items[i], nfc);
      }
      assert ItemTrees(v.items) == ItemTrees(w.items);
    } else if v.Object? && w.Object? {
      forall k | k in EntryMap(v.entries)
        ensures k in EntryMap(w.entries)
        ensures var x, y := EntryMap(v.entries)[k], EntryMap(w.entries)[k];
          (Accepts(x, nfc) <==> Accepts(y, nfc)) && ToTree(x) == ToTree(y)
      {
        var i, j := EntriesOfKey(v.entries, w.entries, k);
        assert Reordered(v.entries[i].value, w.entries[j].value);
        ReorderedAlike(v.entries[i].value, w.entries[j].value, nfc);
      }
      ReorderedEntriesAlike(v.entries, w.entries, nfc);
    }
  }

  lemma {:induction false} ReorderedEntriesAlike(a: seq<Entry<Js>>, b: seq<Entry<Js>>, nfc: NfcTest)
    requires DistinctKeys(a) && DistinctKeys(b) && EntryMap(a).Keys == EntryMap(b).Keys
    requires forall k :: k in EntryMap(a) ==>
      && (Accepts(EntryMap(a)[k], nfc) <==> Accepts(EntryMap(b)[k], nfc))
      && ToTree(EntryMap(a)[k]) == ToTree(EntryMap(b)[k])
    ensures Accepts(Object(a), nfc) <==> Accepts(Object(b), nfc)
    ensures ToTree(Object(a)) == ToTree(Object(b))
  {
    assert forall k :: k in EntryMap(a) <==> k in EntryMap(b);
    AcceptsByKey(a, nfc);
    AcceptsByKey(b, nfc);
    MapOfTrees(a);
    MapOfTrees(b);
    assert EntryMap(EntryTrees(a)) == EntryMap(EntryTrees(b));
    SortOfSameMap(EntryTrees(a), EntryTrees(b));
  }

  /**
   * Whatever the value, byte arrays and literals included: reordering keys at any depth changes neither
   * whether it is accepted nor its bytes.
   */
  lemma {:induction false} KeyOrderIrrelevantAtDepth(v: Js, w: Js, nfc: NfcTest)
    requires Reordered(v, w)
    ensures CanonicalBytes(v, nfc) == CanonicalBytes(w, nfc)
  {
    ReorderedAlike(v, w, nfc);
  }

  // ----- Values outside the plain ones collide with them -----

  /** A byte array prints as the string of its base64url text. */
  lemma BytesPrintAsString(bytes: seq<Byte>, text: JsString, nfc: NfcTest)
    requires text == Base64.ToBase64UrlNoPad(bytes)
    ensures CanonicalBytes(ByteArray(bytes), nfc) == CanonicalBytes(Str(text), nfc)
  {
    assert ToTree(ByteArray(bytes)) == TStr(text);
    assert ToTree(Str(text)) == TStr(text);
  }

  /** An int64 literal prints as the number it spells, and negative zero as zero. */
  lemma LiteralPrintsAsNumber(n: int, nfc: NfcTest)
    requires IsSafeInteger(n)
    ensures CanonicalBytes(Int64Literal(Show(n)), nfc) == CanonicalBytes(Number(Whole(n)), nfc)
    ensures n == 0 ==> CanonicalBytes(Number(NegativeZero), nfc) == CanonicalBytes(Number(Whole(n)), nfc)
  {
    assert TextOf(Int64Literal(Show(n))) == Show(n);
    assert TextOf(Number(Whole(n))) == Show(n);
  }
}
