/** The order in which the sorted JSON lists the keys of an object. */
module JsonKeyOrder {
  import opened Utf16
  import opened World
  import opened Decimal
  import opened Json
  import opened KeySort
  import opened Canonical
  import opened SortedJson

  predicate Precedes(k: JsString, l: JsString) {
    if ArrayIndex(k).Some? then ArrayIndex(l).None? || ArrayIndex(k).value < ArrayIndex(l).value
    else ArrayIndex(l).None? && Less(k, l)
  }

  /** Array indices first, by number; then the other keys, by code unit. */
  predicate InOwnOrder<V>(es: seq<Entry<V>>) {
    forall i, j :: 0 <= i < j < |es| ==> Precedes(es[i].key, es[j].key)
  }

  lemma IndexDeterminesKey(k: JsString, l: JsString)
    requires ArrayIndex(k).Some? && ArrayIndex(k) == ArrayIndex(l)
    ensures k == l
  {
  }

  lemma {:induction false} InsertIndexElements(es: seq<Entry<Js>>, e: Entry<Js>)
    requires ArrayIndex(e.key).Some?
    ensures forall x :: x in InsertIndex(es, e) <==> x == e || x in es
  {
    if es != [] && !IndexBefore(e.key, es[0].key) {
      InsertIndexElements(es[1..], e);
      assert es == [es[0]] + es[1..];
    }
  }

  /** A key in front of an ordered list whose first key it precedes. */
  lemma OrderedCons(e: Entry<Js>, es: seq<Entry<Js>>)
    requires InOwnOrder(es) && forall x :: x in es ==> Precedes(e.key, x.key)
    ensures InOwnOrder([e] + es)
  {
    var r := [e] + es;
    forall i, j | 0 <= i < j < |r| ensures Precedes(r[i].key, r[j].key) {
      assert r[j] == es[j - 1] && es[j - 1] in es;
      assert i > 0 ==> r[i] == es[i - 1];
    }
  }

  lemma IndexPrecedesAll(es: seq<Entry<Js>>, e: Entry<Js>, x: Entry<Js>)
    requires es != [] && InOwnOrder(es) && ArrayIndex(e.key).Some? && IndexBefore(e.key, es[0].key) && x in es
    ensures Precedes(e.key, x.key)
  {
    var j :| 0 <= j < |es| && es[j] == x;
    assert j > 0 ==> Precedes(es[0].key, es[j].key);
  }

  lemma {:induction false} InsertIndexOrdered(es: seq<Entry<Js>>, e: Entry<Js>)
    requires InOwnOrder(es) && ArrayIndex(e.key).Some? && forall x :: x in es ==> x.key != e.key
    ensures InOwnOrder(InsertIndex(es, e))
  {
    if es == [] {
    } else if IndexBefore(e.key, es[0].key) {
      forall x | x in es ensures Precedes(e.key, x.key) {
        IndexPrecedesAll(es, e, x);
      }
      OrderedCons(e, es);
    } else {
      assert forall x :: x in es[1..] ==> x in es;
      InsertIndexOrdered(es[1..], e);
      InsertIndexElements(es[1..], e);
      forall x | x in InsertIndex(es[1..], e) ensures Precedes(es[0].key, x.key) {
        FirstPrecedes(es, e, x);
      }
      OrderedCons(es[0], InsertIndex(es[1..], e));
    }
  }

  lemma FirstPrecedes(es: seq<Entry<Js>>, e: Entry<Js>, x: Entry<Js>)
    requires es != [] && InOwnOrder(es) && ArrayIndex(e.key).Some? && !IndexBefore(e.key, es[0].key)
    requires es[0].key != e.key && (x == e || x in es[1..])
    ensures Precedes(es[0].key, x.key)
  {
    if x == e {
      if ArrayIndex(es[0].key) == ArrayIndex(e.key) {
        IndexDeterminesKey(es[0].key, e.key);
      }
    } else {
      var i :| 0 <= i < |es| - 1 && es[1..][i] == x;
      assert es[i + 1] == x && Precedes(es[0].key, es[i + 1].key);
    }
  }

  /** Every key of the first list is new to the second, and unless it is an array index sorts before its keys. */
  ghost predicate SortsBefore(out: seq<Entry<Js>>, es: seq<Entry<Js>>) {
    forall x, k :: x in out && k in EntryMap(es) ==> x.key != k && (ArrayIndex(x.key).None? ==> Less(x.key, k))
  }

  lemma {:induction false} AssignOrdered(out: seq<Entry<Js>>, es: seq<Entry<Js>>)
    requires es != [] && InOwnOrder(out) && StrictlySorted(es) && SortsBefore(out, es)
    ensures InOwnOrder(Assign(out, es[0])) && SortsBefore(Assign(out, es[0]), es[1..])
  {
    var e := es[0];
    assert e.key in EntryMap(es);
    forall k | k in EntryMap(es[1..]) ensures k in EntryMap(es) && Less(e.key, k) && e.key != k {
      LessTrichotomy(e.key, k);
    }
    forall x | x in out ensures x.key != e.key {
    }
    if e.key == Proto() {
    } else if ArrayIndex(e.key).Some? {
      InsertIndexElements(out, e);
      InsertIndexOrdered(out, e);
    } else {
      AppendOrdered(out, e);
    }
  }

  lemma AppendOrdered(out: seq<Entry<Js>>, e: Entry<Js>)
    requires InOwnOrder(out) && ArrayIndex(e.key).None?
    requires forall x :: x in out ==> ArrayIndex(x.key).None? ==> Less(x.key, e.key)
    ensures InOwnOrder(out + [e])
  {
    var r := out + [e];
    forall i, j | 0 <= i < j < |r| ensures Precedes(r[i].key, r[j].key) {
      assert r[i] == out[i] && out[i] in out;
      assert j < |out| ==> r[j] == out[j];
    }
  }

  /** `sortJsonValue` lists array indices first, by number, and the other keys in UTF-16 order. */
  lemma {:induction false} AssignAllOrdered(out: seq<Entry<Js>>, es: seq<Entry<Js>>)
    requires InOwnOrder(out) && StrictlySorted(es) && SortsBefore(out, es)
    ensures InOwnOrder(AssignAll(out, es))
    decreases |es|
  {
    if es != [] {
      AssignOrdered(out, es);
      AssignAllOrdered(Assign(out, es[0]), es[1..]);
    }
  }

  lemma SortedKeysInOwnOrder(entries: seq<Entry<Js>>)
    requires DistinctKeys(entries)
    ensures InOwnOrder(SortJson(Object(entries)).entries)
  {
    MapOfSortValues(entries);
    SortStrict(SortValues(entries));
    AssignAllOrdered([], Sort(SortValues(entries)));
  }

  // ----- When that is the order of RFC 8785 -----

  /** The listed keys ascend by code unit. */
  predicate Ascends(es: seq<Entry<Js>>) {
    forall i, j :: 0 <= i < j < |es| ==> Less(es[i].key, es[j].key)
  }

  /** No two kept keys of the object are listed one way and sort the other way. */
  ghost predicate KeysAgree(entries: seq<Entry<Js>>) {
    forall k, l ::
      k in EntryMap(entries) && l in EntryMap(entries) && k != Proto() && l != Proto() && Precedes(k, l) ==> Less(k, l)
  }

  /** Of two different keys one precedes the other, and not both ways. */
  lemma {:induction false} PrecedesEither(k: JsString, l: JsString)
    requires k != l
    ensures Precedes(k, l) != Precedes(l, k)
  {
    LessTrichotomy(k, l);
    if ArrayIndex(k).Some? && ArrayIndex(k) == ArrayIndex(l) {
      IndexDeterminesKey(k, l);
    }
  }

  lemma {:induction false} ListedKeys(entries: seq<Entry<Js>>, k: JsString)
    requires DistinctKeys(entries)
    ensures k in EntryMap(entries) && k != Proto() <==>
      exists i :: 0 <= i < |SortJson(Object(entries)).entries| && SortJson(Object(entries)).entries[i].key == k
  {
    var out := SortJson(Object(entries)).entries;
    SortedObject(entries);
    if k in EntryMap(entries) && k != Proto() {
      assert k in EntryMap(out);
      EntryOfMap(out, k);
      var i :| 0 <= i < |out| && out[i] == Entry(k, EntryMap(out)[k]);
    }
    forall i | 0 <= i < |out| && out[i].key == k ensures k in EntryMap(entries) && k != Proto() {
      MapOfEntry(out, i);
      assert k in EntryMap(out);
    }
  }

  /** One object's keys are listed in the order of RFC 8785 exactly when no two of them disagree. */
  lemma {:induction false} AscendsExactly(entries: seq<Entry<Js>>)
    requires DistinctKeys(entries)
    ensures Ascends(SortJson(Object(entries)).entries) <==> KeysAgree(entries)
  {
    var out := SortJson(Object(entries)).entries;
    SortedKeysInOwnOrder(entries);
    if Ascends(out) {
      forall k, l | k in EntryMap(entries) && l in EntryMap(entries) && k != Proto() && l != Proto() && Precedes(k, l)
        ensures Less(k, l)
      {
        ListedKeys(entries, k);
        ListedKeys(entries, l);
        var i :| 0 <= i < |out| && out[i].key == k;
        var j :| 0 <= j < |out| && out[j].key == l;
        LessTrichotomy(k, k);
        if j <= i {
          assert k != l && Precedes(out[j].key, out[i].key);
          PrecedesEither(k, l);
        }
      }
    }
    if KeysAgree(entries) {
      forall i, j | 0 <= i < j < |out| ensures Less(out[i].key, out[j].key) {
        ListedKeys(entries, out[i].key);
        ListedKeys(entries, out[j].key);
        assert Precedes(out[i].key, out[j].key);
      }
    }
  }

  /** Every object that is printed, at any depth, lists its keys in the order of RFC 8785. */
  predicate AscendsThroughout(v: Js) {
    match v
    case Array(items) => forall i :: 0 <= i < |items| ==> AscendsThroughout(items[i])
    case Object(entries) => Ascends(entries) && forall i :: 0 <= i < |entries| ==> AscendsThroughout(entries[i].value)
    case _ => true
  }

  /** No object inside has two kept keys that disagree; what hangs below a `__proto__` key is not printed. */
  ghost predicate AgreesThroughout(v: Js) {
    match v
    case Array(items) => forall i :: 0 <= i < |items| ==> AgreesThroughout(items[i])
    case Object(entries) =>
      && KeysAgree(entries)
      && forall i :: 0 <= i < |entries| && entries[i].key != Proto() ==> AgreesThroughout(entries[i].value)
    case _ => true
  }

  /** The sorted value is in the order of RFC 8785 at every depth exactly when no two kept keys disagree. */
  lemma {:induction false} SortedAsRfc8785Exactly(v: Js)
    requires JsonValue(v)
    ensures AscendsThroughout(SortJson(v)) <==> AgreesThroughout(v)
    decreases v
  {
    match v
    case Array(items) =>
      forall i | 0 <= i < |items| ensures AscendsThroughout(SortJson(items[i])) <==> AgreesThroughout(items[i]) {
        SortedAsRfc8785Exactly(items[i]);
      }
      assert |SortItems(items)| == |items|;
      assert forall i :: 0 <= i < |items| ==> SortItems(items)[i] == SortJson(items[i]);
    case Object(entries) =>
      AscendsExactly(entries);
      forall i | 0 <= i < |entries|
        ensures AscendsThroughout(SortJson(entries[i].value)) <==> AgreesThroughout(entries[i].value)
      {
        SortedAsRfc8785Exactly(entries[i].value);
      }
      ListedValues(entries);
    case _ =>
  }

  lemma {:induction false} ListedFrom(entries: seq<Entry<Js>>, i: nat) returns (j: nat)
    requires DistinctKeys(entries) && i < |SortJson(Object(entries)).entries|
    ensures j < |entries| && entries[j].key != Proto()
    ensures SortJson(Object(entries)).entries[i] == Entry(entries[j].key, SortJson(entries[j].value))
  {
    var out := SortJson(Object(entries)).entries;
    SortedObject(entries);
    MapOfEntry(out, i);
    EntryOfMap(entries, out[i].key);
    j :| 0 <= j < |entries| && entries[j] == Entry(out[i].key, EntryMap(entries)[out[i].key]);
  }

  lemma {:induction false} KeptIsListed(entries: seq<Entry<Js>>, i: nat) returns (j: nat)
    requires DistinctKeys(entries) && i < |entries|
    ensures entries[i].key != Proto() ==>
      && j < |SortJson(Object(entries)).entries|
      && SortJson(Object(entries)).entries[j] == Entry(entries[i].key, SortJson(entries[i].value))
  {
    j := 0;
    if entries[i].key != Proto() {
      var out := SortJson(Object(entries)).entries;
      SortedObject(entries);
      MapOfEntry(entries, i);
      EntryOfMap(out, entries[i].key);
      j :| 0 <= j < |out| && out[j] == Entry(entries[i].key, EntryMap(out)[entries[i].key]);
    }
  }

  /** The listed values are the sorted values of the kept entries. */
  lemma {:induction false} ListedValues(entries: seq<Entry<Js>>)
    requires DistinctKeys(entries)
    ensures var out := SortJson(Object(entries)).entries;
      (forall i :: 0 <= i < |out| ==> AscendsThroughout(out[i].value)) <==>
      forall i :: 0 <= i < |entries| && entries[i].key != Proto() ==> AscendsThroughout(SortJson(entries[i].value))
  {
    var out := SortJson(Object(entries)).entries;
    if forall i :: 0 <= i < |out| ==> AscendsThroughout(out[i].value) {
      forall i | 0 <= i < |entries| && entries[i].key != Proto() ensures AscendsThroughout(SortJson(entries[i].value)) {
        var j := KeptIsListed(entries, i);
        assert AscendsThroughout(out[j].value);
      }
    } else {
      var i :| 0 <= i < |out| && !AscendsThroughout(out[i].value);
      var j := ListedFrom(entries, i);
      assert !AscendsThroughout(SortJson(entries[j].value));
    }
  }

  /** An object with the keys 10 and 9: 10 is the lesser string, but 9 is listed first. */
  lemma {:induction false} NineBeforeTen(a: Js, b: Js)
    ensures var entries := [Entry(Digits(10), a), Entry(Digits(9), b)];
      var out := SortJson(Object(entries)).entries;
      && DistinctKeys(entries) && |out| == 2 && out[0].key == Digits(9) && out[1].key == Digits(10)
      && Less(Digits(10), Digits(9)) && !Ascends(out)
  {
    var entries := [Entry(Digits(10), a), Entry(Digits(9), b)];
    NineAndTen();
    DistinctPairwise(entries);
    SortedKeysInOwnOrder(entries);
    ListedKeys(entries, Digits(9));
    ListedKeys(entries, Digits(10));
    TwoListed(entries);
  }

  lemma NineAndTen()
    ensures Digits(9) == [ZERO + 9] && Digits(10) == [ZERO + 1, ZERO]
    ensures Precedes(Digits(9), Digits(10)) && Less(Digits(10), Digits(9)) && !Less(Digits(9), Digits(10))
    ensures Digits(9) != Proto() && Digits(10) != Proto()
  {
    DigitsAreIndex(9);
    DigitsAreIndex(10);
    assert Digits(10) == Digits(1) + [ZERO] && Digits(1) == [ZERO + 1];
    assert |Proto()| == 9;
  }

  lemma {:induction false} TwoListed(entries: seq<Entry<Js>>)
    requires |entries| == 2 && entries[0].key == Digits(10) && entries[1].key == Digits(9) && DistinctKeys(entries)
    ensures var out := SortJson(Object(entries)).entries;
      |out| == 2 && out[0].key == Digits(9) && out[1].key == Digits(10)
  {
    var out := SortJson(Object(entries)).entries;
    NineAndTen();
    SortedObject(entries);
    SortedKeysInOwnOrder(entries);
    DistinctByCount(out);
    assert EntryMap(entries).Keys == {Digits(10), Digits(9)} by {
      assert entries[1..] == [entries[1]] && entries[1..][1..] == [];
    }
    assert EntryMap(out).Keys == {Digits(10), Digits(9)};
    assert |out| == 2;
    MapOfEntry(out, 0);
    MapOfEntry(out, 1);
    assert Precedes(out[0].key, out[1].key);
    PrecedesEither(Digits(9), Digits(10));
    LessTrichotomy(out[0].key, out[0].key);
    DistinctPairwise(out);
  }

  lemma DigitsAreIndex(n: nat)
    requires n < 0xFFFF_FFFF
    ensures ArrayIndex(Digits(n)) == Some(n)
  {
    TakeDigitsOfDigits(n, []);
    assert Digits(n) + [] == Digits(n);
  }
}
