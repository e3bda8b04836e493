/** `Object.keys(value).sort()`: entries ordered by the UTF-16 code units of their keys. */
module KeySort {
  import opened Utf16
  import opened Json

  /** Strictly ascending keys: the first key is below every later one. */
  predicate StrictlySorted<V>(es: seq<Entry<V>>) {
    es == [] || (Below(es[0].key, EntryMap(es[1..]).Keys) && StrictlySorted(es[1..]))
  }

  predicate Below(k: JsString, keys: set<JsString>) {
    forall k' <- keys :: Less(k, k')
  }

  function Insert<V>(e: Entry<V>, es: seq<Entry<V>>): seq<Entry<V>> {
    if es == [] || !Less(es[0].key, e.key) then [e] + es else [es[0]] + Insert(e, es[1..])
  }

  function Sort<V>(es: seq<Entry<V>>): seq<Entry<V>> {
    if es == [] then [] else Insert(es[0], Sort(es[1..]))
  }

  lemma {:induction false} InsertElements<V>(e: Entry<V>, es: seq<Entry<V>>)
    ensures |Insert(e, es)| == |es| + 1
    ensures forall x :: x in Insert(e, es) <==> x == e || x in es
  {
    if es == [] || !Less(es[0].key, e.key) {
    } else {
      InsertElements(e, es[1..]);
      assert es == [es[0]] + es[1..];
    }
  }

  lemma {:induction false} SortElements<V>(es: seq<Entry<V>>)
    ensures |Sort(es)| == |es|
    ensures forall x :: x in Sort(es) <==> x in es
  {
    if es != [] {
      SortElements(es[1..]);
      InsertElements(es[0], Sort(es[1..]));
      assert es == [es[0]] + es[1..];
    }
  }

  lemma {:induction false} InsertStrict<V>(e: Entry<V>, es: seq<Entry<V>>)
    requires StrictlySorted(es)
    requires e.key !in EntryMap(es)
    ensures StrictlySorted(Insert(e, es))
    ensures EntryMap(Insert(e, es)) == EntryMap(es)[e.key := e.value]
  {
    var r := Insert(e, es);
    if es == [] {
      assert r[1..] == [];
    } else if !Less(es[0].key, e.key) {
      assert r[1..] == es;
      LessTrichotomy(es[0].key, e.key);
      forall k | k in EntryMap(es) ensures Less(e.key, k) {
        if k != es[0].key {
          LessTransitive(e.key, es[0].key, k);
        }
      }
    } else {
      assert r[1..] == Insert(e, es[1..]);
      InsertStrict(e, es[1..]);
    }
  }

  /** Sorting keeps the mapping and, when no key is repeated, leaves the keys strictly ascending. */
  lemma {:induction false} SortStrict<V>(es: seq<Entry<V>>)
    requires DistinctKeys(es)
    ensures StrictlySorted(Sort(es))
    ensures EntryMap(Sort(es)) == EntryMap(es)
  {
    if es != [] {
      SortStrict(es[1..]);
      InsertStrict(es[0], Sort(es[1..]));
    }
  }

  lemma SortMember<V>(es: seq<Entry<V>>, e: Entry<V>)
    ensures e in Sort(es) <==> e in es
  {
    SortElements(es);
  }

  lemma {:induction false} StrictlySortedDistinct<V>(es: seq<Entry<V>>)
    requires StrictlySorted(es)
    ensures DistinctKeys(es)
  {
    if es != [] {
      LessTrichotomy(es[0].key, es[0].key);
      StrictlySortedDistinct(es[1..]);
    }
  }

  /** A mapping has one strictly ascending list of entries. */
  lemma {:induction false} SortedUnique<V>(a: seq<Entry<V>>, b: seq<Entry<V>>)
    requires StrictlySorted(a) && StrictlySorted(b)
    requires EntryMap(a) == EntryMap(b)
    ensures a == b
  {
    assert a != [] ==> a[0].key in EntryMap(a);
    assert b != [] ==> b[0].key in EntryMap(b);
    if a != [] {
      LessTrichotomy(a[0].key, b[0].key);
      StrictlySortedDistinct(a);
      StrictlySortedDistinct(b);
      assert EntryMap(a[1..]) == EntryMap(a) - {a[0].key};
      assert EntryMap(b[1..]) == EntryMap(b) - {b[0].key};
      SortedUnique(a[1..], b[1..]);
      assert a == [a[0]] + a[1..] && b == [b[0]] + b[1..];
    }
  }

  /** Two lists of entries with the same mapping sort to the same list, whatever order they came in. */
  lemma SortOfSameMap<V>(a: seq<Entry<V>>, b: seq<Entry<V>>)
    requires DistinctKeys(a) && DistinctKeys(b)
    requires EntryMap(a) == EntryMap(b)
    ensures Sort(a) == Sort(b)
  {
    SortStrict(a);
    SortStrict(b);
    SortedUnique(Sort(a), Sort(b));
  }

  // ----- Repeated keys -----

  /** No key is repeated exactly when there are as many keys as entries. */
  lemma {:induction false} DistinctByCount<V>(es: seq<Entry<V>>)
    ensures |EntryMap(es).Keys| <= |es|
    ensures DistinctKeys(es) <==> |EntryMap(es).Keys| == |es|
  {
    if es != [] {
      DistinctByCount(es[1..]);
      assert EntryMap(es).Keys == EntryMap(es[1..]).Keys + {es[0].key};
    }
  }

  lemma {:induction false} KeysFromElements<V>(es: seq<Entry<V>>, k: JsString)
    ensures k in EntryMap(es) <==> exists e :: e in es && e.key == k
  {
    if es != [] {
      KeysFromElements(es[1..], k);
      assert es == [es[0]] + es[1..];
      assert es[0] in es;
    }
  }

  lemma SortKeepsDistinct<V>(es: seq<Entry<V>>)
    ensures DistinctKeys(Sort(es)) <==> DistinctKeys(es)
  {
    SortElements(es);
    forall k: JsString ensures k in EntryMap(Sort(es)).Keys <==> k in EntryMap(es).Keys {
      KeysFromElements(es, k);
      KeysFromElements(Sort(es), k);
      if k in EntryMap(es) {
        var e :| e in es && e.key == k;
        assert e in Sort(es);
      }
      if k in EntryMap(Sort(es)) {
        var e :| e in Sort(es) && e.key == k;
        assert e in es;
      }
    }
    assert EntryMap(Sort(es)).Keys == EntryMap(es).Keys;
    DistinctByCount(es);
    DistinctByCount(Sort(es));
  }

  predicate PairwiseDistinct<V>(es: seq<Entry<V>>, n: nat)
    requires n <= |es|
  {
    forall i, j :: 0 <= i < j < n ==> es[i].key != es[j].key
  }

  lemma {:induction false} DistinctPairwise<V>(es: seq<Entry<V>>)
    ensures DistinctKeys(es) <==> PairwiseDistinct(es, |es|)
  {
    if es != [] {
      DistinctPairwise(es[1..]);
      FirstKeyRepeats(es);
      PairwiseTail(es);
    }
  }

  lemma FirstKeyRepeats<V>(es: seq<Entry<V>>)
    requires es != []
    ensures es[0].key in EntryMap(es[1..]) <==> exists j :: 1 <= j < |es| && es[j].key == es[0].key
  {
    var tail := es[1..];
    KeysFromElements(tail, es[0].key);
    if es[0].key in EntryMap(tail) {
      var e :| e in tail && e.key == es[0].key;
      var j :| 0 <= j < |tail| && tail[j] == e;
      assert es[j + 1].key == es[0].key;
    }
    forall j | 1 <= j < |es| ensures es[j] in tail {
      assert tail[j - 1] == es[j];
    }
  }

  lemma PairwiseTail<V>(es: seq<Entry<V>>)
    requires es != []
    ensures PairwiseDistinct(es, |es|) <==>
      PairwiseDistinct(es[1..], |es| - 1) && !exists j :: 1 <= j < |es| && es[j].key == es[0].key
  {
    var tail := es[1..];
    assert forall j :: 1 <= j < |es| ==> es[j] == tail[j - 1];
    assert forall j :: 0 <= j < |tail| ==> tail[j] == es[j + 1];
  }

  // ----- Looking entries up -----

  lemma {:induction false} EntryOfMap<V>(es: seq<Entry<V>>, k: JsString)
    requires k in EntryMap(es)
    ensures Entry(k, EntryMap(es)[k]) in es
  {
    if k != es[0].key {
      EntryOfMap(es[1..], k);
      assert es == [es[0]] + es[1..];
    } else {
      assert es[0] == Entry(k, EntryMap(es)[k]);
    }
  }

  lemma {:induction false} MapOfEntry<V>(es: seq<Entry<V>>, i: nat)
    requires DistinctKeys(es) && i < |es|
    ensures es[i].key in EntryMap(es) && EntryMap(es)[es[i].key] == es[i].value
  {
    assert es[i] in es;
    KeysFromElements(es, es[i].key);
    EntryOfMap(es, es[i].key);
    UniqueEntry(es, es[i], Entry(es[i].key, EntryMap(es)[es[i].key]));
  }

  lemma {:induction false} UniqueEntry<V>(es: seq<Entry<V>>, e: Entry<V>, f: Entry<V>)
    requires DistinctKeys(es) && e in es && f in es && e.key == f.key
    ensures e == f
  {
    DistinctPairwise(es);
    var i :| 0 <= i < |es| && es[i] == e;
    var j :| 0 <= j < |es| && es[j] == f;
  }

  // ----- Sorting looks at keys only -----

  /** The same keys in the same places, with related values. */
  ghost predicate Related<V(!new), W(!new)>(a: seq<Entry<V>>, b: seq<Entry<W>>, r: (V, W) -> bool) {
    |a| == |b| && forall i :: 0 <= i < |a| ==> a[i].key == b[i].key && r(a[i].value, b[i].value)
  }

  lemma {:induction false} InsertRelated<V(!new), W(!new)>(e: Entry<V>, a: seq<Entry<V>>, f: Entry<W>,
          b: seq<Entry<W>>, r: (V, W) -> bool)
    requires e.key == f.key && r(e.value, f.value) && Related(a, b, r)
    ensures Related(Insert(e, a), Insert(f, b), r)
  {
    if a != [] && Less(a[0].key, e.key) {
      InsertRelated(e, a[1..], f, b[1..], r);
    }
  }

  lemma {:induction false} SortRelated<V(!new), W(!new)>(a: seq<Entry<V>>, b: seq<Entry<W>>, r: (V, W) -> bool)
    requires Related(a, b, r)
    ensures Related(Sort(a), Sort(b), r)
  {
    if a != [] {
      SortRelated(a[1..], b[1..], r);
      InsertRelated(a[0], Sort(a[1..]), b[0], Sort(b[1..]), r);
    }
  }
}
