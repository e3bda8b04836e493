/** The order of keys that `canonical.ts` announces, by code point, against the order it sorts them in. */
module CodePointOrder {
  import opened Utf16
  import opened Json
  import opened KeySort
  import opened Canonical

  /** Strings by code point, shorter prefix first. */
  predicate ByCodePoint(a: seq<CodePoint>, b: seq<CodePoint>) {
    b != [] && (a == [] || a[0] < b[0] || (a[0] == b[0] && ByCodePoint(a[1..], b[1..])))
  }

  predicate IsSurrogate(u: int) {
    0xD800 <= u <= 0xDFFF
  }

  /** At the first unit in which they differ, one string has a surrogate and the other a unit past the surrogates. */
  predicate Disagree(a: JsString, b: JsString) {
    && a != [] && b != []
    && if a[0] == b[0] then Disagree(a[1..], b[1..])
       else (IsSurrogate(a[0]) && b[0] >= 0xE000) || (IsSurrogate(b[0]) && a[0] >= 0xE000)
  }

  /** The first code point of a string, and how many units it takes. */
  function Width(s: JsString): nat
    requires s != []
  {
    if |s| >= 2 && IsHigh(s[0]) && IsLow(s[1]) then 2 else 1
  }

  lemma FirstCodePoint(s: JsString)
    requires s != [] && AllScalar(CodePoints(s))
    ensures var w := Width(s);
      && w <= |s| && CodePoints(s) != [] && CodePoints(s)[1..] == CodePoints(s[w..]) && AllScalar(CodePoints(s[w..]))
      && (w == 1 <==> !IsSurrogate(s[0]))
      && CodePoints(s)[0] == if w == 2 then Paired(s[0], s[1]) else s[0]
  {
    assert CodePoints(s)[1..] == CodePoints(s[Width(s)..]);
    assert CodePoints(s)[0] in CodePoints(s);
    assert forall c <- CodePoints(s)[1..] :: c in CodePoints(s);
  }

  /** Of two well-formed strings the sort and the code points tell the same order exactly unless they disagree. */
  lemma {:induction false} OrdersAgreeExactly(a: JsString, b: JsString)
    requires AllScalar(CodePoints(a)) && AllScalar(CodePoints(b)) && a != b
    ensures (Less(a, b) == ByCodePoint(CodePoints(a), CodePoints(b))) <==> !Disagree(a, b)
  {
    if a != [] && b != [] {
      FirstCodePoint(a);
      FirstCodePoint(b);
      var w := Width(a);
      if w == Width(b) && a[..w] == b[..w] {
        assert a[0] == a[..w][0] == b[0] && (w == 2 ==> a[1] == a[..w][1] == b[1]);
        assert a == a[..w] + a[w..] && b == b[..w] + b[w..];
        OrdersAgreeExactly(a[w..], b[w..]);
        SamePrefix(a, b, w);
      } else {
        DifferentFirst(a, b);
      }
    }
  }

  lemma SamePrefix(a: JsString, b: JsString, w: nat)
    requires 1 <= w <= 2 && w <= |a| && w <= |b| && a[0] == b[0] && (w == 2 ==> a[1] == b[1])
    ensures Less(a, b) == Less(a[w..], b[w..]) && Disagree(a, b) == Disagree(a[w..], b[w..])
  {
    if w == 2 {
      assert a[1..][1..] == a[2..] && b[1..][1..] == b[2..];
    }
  }

  /** Well-formed strings that differ in their first code point. */
  lemma DifferentFirst(a: JsString, b: JsString)
    requires a != [] && b != [] && AllScalar(CodePoints(a)) && AllScalar(CodePoints(b))
    requires Width(a) != Width(b) || a[..Width(a)] != b[..Width(a)]
    ensures (Less(a, b) == ByCodePoint(CodePoints(a), CodePoints(b))) <==> !Disagree(a, b)
  {
    FirstCodePoint(a);
    FirstCodePoint(b);
    if Width(a) == 1 && Width(b) == 1 {
      assert a[..1] == [a[0]] && b[..1] == [b[0]];
    } else if Width(a) == 2 && Width(b) == 2 {
      assert a[..2] == [a[0], a[1]] && b[..2] == [b[0], b[1]];
      assert a[1..][0] == a[1] && b[1..][0] == b[1];
    }
  }

  // ----- Canonical objects -----

  predicate AscendsByCodePoint<V>(es: seq<Entry<V>>) {
    forall i, j :: 0 <= i < j < |es| ==> ByCodePoint(CodePoints(es[i].key), CodePoints(es[j].key))
  }

  ghost predicate NoKeysDisagree<V(!new)>(es: seq<Entry<V>>) {
    forall k, l :: k in EntryMap(es) && l in EntryMap(es) ==> !Disagree(k, l)
  }

  lemma {:induction false} DisagreeSymmetric(a: JsString, b: JsString)
    ensures Disagree(a, b) == Disagree(b, a)
  {
    if a != [] && b != [] && a[0] == b[0] {
      DisagreeSymmetric(a[1..], b[1..]);
    }
  }

  lemma {:induction false} AgreesWithItself(a: JsString)
    ensures !Disagree(a, a)
  {
    if a != [] {
      AgreesWithItself(a[1..]);
    }
  }

  lemma {:induction false} SortedPairwise<V>(es: seq<Entry<V>>, i: nat, j: nat)
    requires StrictlySorted(es) && i < j < |es|
    ensures Less(es[i].key, es[j].key) && es[i].key != es[j].key
  {
    if i == 0 {
      assert es[1..][j - 1] == es[j];
      StrictlySortedDistinct(es);
      MapOfEntry(es[1..], j - 1);
      LessTrichotomy(es[i].key, es[i].key);
    } else {
      SortedPairwise(es[1..], i - 1, j - 1);
    }
  }

  /** One object's sorted keys ascend by code point exactly when no two of them disagree. */
  lemma {:induction false} SortAscendsExactly<V(!new)>(es: seq<Entry<V>>)
    requires DistinctKeys(es) && forall k <- EntryMap(es) :: AllScalar(CodePoints(k))
    ensures AscendsByCodePoint(Sort(es)) <==> NoKeysDisagree(es)
  {
    var sorted := Sort(es);
    SortStrict(es);
    StrictlySortedDistinct(sorted);
    if NoKeysDisagree(es) {
      forall i, j | 0 <= i < j < |sorted| ensures ByCodePoint(CodePoints(sorted[i].key), CodePoints(sorted[j].key)) {
        SortedPairwise(sorted, i, j);
        MapOfEntry(sorted, i);
        MapOfEntry(sorted, j);
        OrdersAgreeExactly(sorted[i].key, sorted[j].key);
      }
    }
    if AscendsByCodePoint(sorted) {
      forall k, l | k in EntryMap(es) && l in EntryMap(es) ensures !Disagree(k, l) {
        EntryOfMap(sorted, k);
        EntryOfMap(sorted, l);
        var i :| 0 <= i < |sorted| && sorted[i] == Entry(k, EntryMap(sorted)[k]);
        var j :| 0 <= j < |sorted| && sorted[j] == Entry(l, EntryMap(sorted)[l]);
        PairAgrees(sorted, i, j);
      }
    }
  }

  lemma {:induction false} PairAgrees<V>(sorted: seq<Entry<V>>, i: nat, j: nat)
    requires StrictlySorted(sorted) && AscendsByCodePoint(sorted) && i < |sorted| && j < |sorted|
    requires AllScalar(CodePoints(sorted[i].key)) && AllScalar(CodePoints(sorted[j].key))
    ensures !Disagree(sorted[i].key, sorted[j].key)
  {
    if i < j {
      SortedPairwise(sorted, i, j);
      OrdersAgreeExactly(sorted[i].key, sorted[j].key);
    } else if j < i {
      SortedPairwise(sorted, j, i);
      OrdersAgreeExactly(sorted[j].key, sorted[i].key);
      DisagreeSymmetric(sorted[i].key, sorted[j].key);
    } else {
      AgreesWithItself(sorted[i].key);
    }
  }

  /** Every object of the printed tree, at any depth, lists its keys by code point. */
  predicate InCodePointOrder(t: Tree) {
    match t
    case TArr(items) => forall i :: 0 <= i < |items| ==> InCodePointOrder(items[i])
    case TObj(entries) =>
      AscendsByCodePoint(entries) && forall i :: 0 <= i < |entries| ==> InCodePointOrder(entries[i].value)
    case _ => true
  }

  /** No object inside has two keys that disagree. */
  ghost predicate AgreesAtDepth(v: Js) {
    match v
    case Array(items) => forall i :: 0 <= i < |items| ==> AgreesAtDepth(items[i])
    case Object(entries) =>
      NoKeysDisagree(entries) && forall i :: 0 <= i < |entries| ==> AgreesAtDepth(entries[i].value)
    case _ => true
  }

  /** An accepted value is printed in code point order at every depth exactly when no two keys of an object disagree. */
  lemma {:induction false} PrintedByCodePointExactly(v: Js, nfc: NfcTest)
    requires Accepts(v, nfc)
    ensures InCodePointOrder(ToTree(v)) <==> AgreesAtDepth(v)
    decreases v
  {
    match v
    case Array(items) =>
      forall i | 0 <= i < |items| ensures InCodePointOrder(ItemTrees(items)[i]) <==> AgreesAtDepth(items[i]) {
        PrintedByCodePointExactly(items[i], nfc);
      }
    case Object(entries) =>
      forall i | 0 <= i < |entries|
        ensures InCodePointOrder(EntryTrees(entries)[i].value) <==> AgreesAtDepth(entries[i].value)
      {
        assert AcceptsEntry(entries[i], nfc);
        PrintedByCodePointExactly(entries[i].value, nfc);
      }
      ObjectByCodePoint(entries, nfc);
      SortedValuesInOrder(EntryTrees(entries));
    case _ =>
  }

  lemma {:induction false} SameKeys(entries: seq<Entry<Js>>)
    ensures EntryMap(EntryTrees(entries)).Keys == EntryMap(entries).Keys
    ensures DistinctKeys(EntryTrees(entries)) <==> DistinctKeys(entries)
  {
    if entries != [] {
      assert EntryTrees(entries)[1..] == EntryTrees(entries[1..]);
      SameKeys(entries[1..]);
    }
  }

  lemma {:induction false} ObjectByCodePoint(entries: seq<Entry<Js>>, nfc: NfcTest)
    requires AcceptsEntries(entries, nfc)
    ensures AscendsByCodePoint(Sort(EntryTrees(entries))) <==> NoKeysDisagree(entries)
  {
    var trees := EntryTrees(entries);
    SameKeys(entries);
    forall k | k in EntryMap(trees) ensures AllScalar(CodePoints(k)) {
      assert k in EntryMap(entries);
      EntryOfMap(entries, k);
      assert AcceptsEntry(Entry(k, EntryMap(entries)[k]), nfc);
    }
    SortAscendsExactly(trees);
    assert forall k :: k in EntryMap(trees) <==> k in EntryMap(entries);
  }

  lemma SortedValuesInOrder(trees: seq<Entry<Tree>>)
    ensures (forall i :: 0 <= i < |Sort(trees)| ==> InCodePointOrder(Sort(trees)[i].value)) <==>
      forall i :: 0 <= i < |trees| ==> InCodePointOrder(trees[i].value)
  {
    var sorted := Sort(trees);
    if forall i :: 0 <= i < |trees| ==> InCodePointOrder(trees[i].value) {
      forall i | 0 <= i < |sorted| ensures InCodePointOrder(sorted[i].value) {
        SortMember(trees, sorted[i]);
        var j :| 0 <= j < |trees| && trees[j] == sorted[i];
      }
    }
    if forall i :: 0 <= i < |sorted| ==> InCodePointOrder(sorted[i].value) {
      forall i | 0 <= i < |trees| ensures InCodePointOrder(trees[i].value) {
        SortMember(trees, trees[i]);
        var j :| 0 <= j < |sorted| && sorted[j] == trees[i];
      }
    }
  }

  // ----- An input on which it is not -----

  /** The fullwidth tilde, U+FF5E. */
  function Tilde(): JsString {
    [0xFF5E]
  }

  /** The first character past the basic plane, U+10000. */
  function Astral(): JsString {
    [0xD800, 0xDC00]
  }

  lemma AstralSortsFirst()
    ensures CodePoints(Tilde()) == [0xFF5E] && CodePoints(Astral()) == [0x1_0000]
    ensures Less(Astral(), Tilde()) && ByCodePoint(CodePoints(Tilde()), CodePoints(Astral()))
    ensures Disagree(Tilde(), Astral()) && Tilde() != Astral()
  {
    assert Astral()[2..] == [] && Tilde()[1..] == [];
  }

  /** An object with these two keys is accepted, and printed with U+10000 before U+FF5E. */
  lemma {:induction false} AstralPrintedFirst(a: Js, b: Js, nfc: NfcTest)
    requires Accepts(a, nfc) && Accepts(b, nfc) && nfc(Tilde()) && nfc(Astral())
    ensures var v := Object([Entry(Tilde(), a), Entry(Astral(), b)]);
      && Accepts(v, nfc) && !InCodePointOrder(ToTree(v))
      && ToTree(v) == TObj([Entry(Astral(), ToTree(b)), Entry(Tilde(), ToTree(a))])
  {
    var entries := [Entry(Tilde(), a), Entry(Astral(), b)];
    AstralSortsFirst();
    DistinctPairwise(entries);
    assert AcceptsEntry(entries[0], nfc) && AcceptsEntry(entries[1], nfc);
    assert Accepts(Object(entries), nfc);
    PrintedByCodePointExactly(Object(entries), nfc);
    assert entries[1..] == [entries[1]];
    MapOfEntry(entries, 0);
    MapOfEntry(entries, 1);
    var trees := EntryTrees(entries);
    assert trees == [Entry(Tilde(), ToTree(a)), Entry(Astral(), ToTree(b))];
    assert trees[1..] == [trees[1]] && trees[1..][1..] == [];
    assert Sort(trees[1..]) == [trees[1]];
    assert Sort(trees) == Insert(trees[0], [trees[1]]) == [trees[1]] + Insert(trees[0], []);
  }
}
