/** The auditor export's time range and event-type histogram. */
module AuditorExport {
  import opened Utf16
  import opened Timestamps
  import Totals

  // ----- Time range -----

  datatype TimeRange = TimeRange(earliest: JsString, latest: JsString)

  predicate IsLeast(t: JsString, texts: seq<JsString>) {
    t in texts && forall i :: 0 <= i < |texts| ==> !Less(texts[i], t)
  }

  predicate IsGreatest(t: JsString, texts: seq<JsString>) {
    t in texts && forall i :: 0 <= i < |texts| ==> !Less(t, texts[i])
  }

  /** The two reductions over the events' timestamps; without events the time of the verification stands in. */
  method TimeRangeOf(texts: seq<JsString>, verifiedAt: JsString) returns (range: TimeRange)
    ensures texts == [] ==> range == TimeRange(verifiedAt, verifiedAt)
    ensures texts != [] ==> IsLeast(range.earliest, texts) && IsGreatest(range.latest, texts)
  {
    if texts == [] {
      return TimeRange(verifiedAt, verifiedAt);
    }
    var earliest := texts[0];
    for i := 0 to |texts|
      invariant earliest in texts
      invariant forall j :: 0 <= j < i ==> !Less(texts[j], earliest)
    {
      LessTrichotomy(texts[i], texts[i]);
      if Less(texts[i], earliest) {
        forall j | 0 <= j < i ensures !Less(texts[j], texts[i]) {
          if Less(texts[j], texts[i]) {
            LessTransitive(texts[j], texts[i], earliest);
          }
        }
        earliest := texts[i];
      }
    }
    var latest := texts[0];
    for i := 0 to |texts|
      invariant latest in texts
      invariant forall j :: 0 <= j < i ==> !Less(latest, texts[j])
    {
      LessTrichotomy(texts[i], texts[i]);
      if Less(latest, texts[i]) {
        forall j | 0 <= j < i ensures !Less(texts[i], texts[j]) {
          if Less(texts[i], texts[j]) {
            LessTransitive(latest, texts[i], texts[j]);
          }
        }
        latest := texts[i];
      }
    }
    range := TimeRange(earliest, latest);
  }

  /** The timestamps of serialised events. */
  predicate AreTexts(moments: seq<Moment>, texts: seq<JsString>) {
    |moments| == |texts| > 0 && forall i :: 0 <= i < |moments| ==> texts[i] == BundleTimestamp(moments[i])
  }

  /** The text belongs to a chronologically first event. */
  ghost predicate IsFirst(moments: seq<Moment>, texts: seq<JsString>, text: JsString)
    requires AreTexts(moments, texts)
  {
    exists i :: 0 <= i < |moments| && text == texts[i]
                && forall j :: 0 <= j < |moments| ==> EpochMillis(moments[i]) <= EpochMillis(moments[j])
  }

  ghost predicate IsLast(moments: seq<Moment>, texts: seq<JsString>, text: JsString)
    requires AreTexts(moments, texts)
  {
    exists i :: 0 <= i < |moments| && text == texts[i]
                && forall j :: 0 <= j < |moments| ==> EpochMillis(moments[j]) <= EpochMillis(moments[i])
  }

  predicate AllComparable(moments: seq<Moment>) {
    forall i, j :: 0 <= i < |moments| && 0 <= j < |moments| ==> Comparable(moments[i].year, moments[j].year)
  }

  /** Years past 9999 do not meet others, and negative years either all agree or give way to a four-digit one. */
  ghost predicate LastIsFound(moments: seq<Moment>) {
    && (forall i, j :: 0 <= i < |moments| && 0 <= j < |moments| ==>
        (moments[i].year > 9999 <==> moments[j].year > 9999))
    && ((exists i :: 0 <= i < |moments| && 0 <= moments[i].year <= 9999)
        || forall i, j :: 0 <= i < |moments| && 0 <= j < |moments| && moments[i].year < 0 && moments[j].year < 0 ==>
             moments[i].year == moments[j].year)
  }

  /** Where both orders call one moment first, the years are comparable. */
  lemma {:induction false} FirstCompares(a: Moment, b: Moment)
    ensures !Less(BundleTimestamp(b), BundleTimestamp(a)) && EpochMillis(a) <= EpochMillis(b) ==>
      Comparable(a.year, b.year) && a.year <= b.year
  {
    TextOrderExactly(b, a);
    MomentOrder(b, a);
  }

  lemma {:induction false} LastCompares(a: Moment, b: Moment)
    ensures !Less(BundleTimestamp(a), BundleTimestamp(b)) && EpochMillis(b) <= EpochMillis(a) ==>
      Comparable(a.year, b.year)
  {
    TextOrderExactly(a, b);
  }

  /** Of comparable years the lesser text is that of the earlier moment. */
  lemma {:induction false} ComparableOrder(a: Moment, b: Moment)
    ensures Comparable(a.year, b.year) && !Less(BundleTimestamp(b), BundleTimestamp(a)) ==>
      EpochMillis(a) <= EpochMillis(b)
  {
    TextOrderExactly(b, a);
  }

  /** The chosen earliest text is that of a chronologically first event exactly when all years are comparable. */
  lemma {:induction false} EarliestExactly(moments: seq<Moment>, texts: seq<JsString>, earliest: JsString)
    requires AreTexts(moments, texts) && IsLeast(earliest, texts)
    ensures IsFirst(moments, texts, earliest) <==> AllComparable(moments)
  {
    if AllComparable(moments) {
      var i :| 0 <= i < |texts| && texts[i] == earliest;
      forall j | 0 <= j < |moments| ensures EpochMillis(moments[i]) <= EpochMillis(moments[j]) {
        assert !Less(texts[j], texts[i]) && Comparable(moments[i].year, moments[j].year);
        ComparableOrder(moments[i], moments[j]);
      }
    }
    if IsFirst(moments, texts, earliest) {
      var i :| 0 <= i < |moments| && earliest == texts[i]
               && forall j :: 0 <= j < |moments| ==> EpochMillis(moments[i]) <= EpochMillis(moments[j]);
      forall x, y | 0 <= x < |moments| && 0 <= y < |moments| ensures Comparable(moments[x].year, moments[y].year) {
        assert !Less(texts[x], texts[i]) && !Less(texts[y], texts[i]);
        FirstCompares(moments[i], moments[x]);
        FirstCompares(moments[i], moments[y]);
      }
    }
  }

  /** And the chosen latest text that of a last one exactly when LastIsFound. */
  lemma {:induction false} LatestExactly(moments: seq<Moment>, texts: seq<JsString>, latest: JsString)
    requires AreTexts(moments, texts) && IsGreatest(latest, texts)
    ensures IsLast(moments, texts, latest) <==> LastIsFound(moments)
  {
    if LastIsFound(moments) {
      GreatestIsLast(moments, texts, latest);
    }
    if IsLast(moments, texts, latest) {
      var i :| 0 <= i < |moments| && latest == texts[i]
               && forall j :: 0 <= j < |moments| ==> EpochMillis(moments[j]) <= EpochMillis(moments[i]);
      forall j | 0 <= j < |moments| ensures Comparable(moments[i].year, moments[j].year) {
        assert !Less(texts[i], texts[j]);
        LastCompares(moments[i], moments[j]);
      }
      ComparesWithAllIsFound(moments, i);
    }
  }

  lemma {:induction false} GreatestIsLast(moments: seq<Moment>, texts: seq<JsString>, latest: JsString)
    requires AreTexts(moments, texts) && IsGreatest(latest, texts)
    ensures LastIsFound(moments) ==> IsLast(moments, texts, latest)
  {
    var i :| 0 <= i < |texts| && texts[i] == latest;
    if LastIsFound(moments) {
      forall j | 0 <= j < |moments| ensures EpochMillis(moments[j]) <= EpochMillis(moments[i]) {
        GreatestCompares(moments, texts, i, j);
        ComparableOrder(moments[j], moments[i]);
      }
    }
  }

  lemma {:induction false} ComparesWithAllIsFound(moments: seq<Moment>, i: nat)
    requires i < |moments| && forall j :: 0 <= j < |moments| ==> Comparable(moments[i].year, moments[j].year)
    ensures LastIsFound(moments)
  {
    forall x, y | 0 <= x < |moments| && 0 <= y < |moments| ensures moments[x].year > 9999 <==> moments[y].year > 9999 {
      assert Comparable(moments[i].year, moments[x].year) && Comparable(moments[i].year, moments[y].year);
    }
    if !exists x :: 0 <= x < |moments| && 0 <= moments[x].year <= 9999 {
      forall x, y | 0 <= x < |moments| && 0 <= y < |moments| && moments[x].year < 0 && moments[y].year < 0
        ensures moments[x].year == moments[y].year
      {
        assert Comparable(moments[i].year, moments[x].year) && Comparable(moments[i].year, moments[y].year);
      }
    }
  }

  lemma {:induction false} NegativeIsLess(a: Moment, b: Moment)
    ensures a.year < 0 <= b.year <= 9999 ==> Less(BundleTimestamp(a), BundleTimestamp(b))
  {
    TextOrderExactly(a, b);
    MomentOrder(a, b);
  }

  lemma {:induction false} GreatestCompares(moments: seq<Moment>, texts: seq<JsString>, i: nat, j: nat)
    requires AreTexts(moments, texts) && i < |moments| && j < |moments|
    ensures IsGreatest(texts[i], texts) && LastIsFound(moments) ==>
      Comparable(moments[i].year, moments[j].year) && !Less(texts[i], texts[j])
  {
    if k :| 0 <= k < |moments| && 0 <= moments[k].year <= 9999 {
      NegativeIsLess(moments[i], moments[k]);
    }
  }

  /** So for the years 0 to 9999 the range is chronological; it is for comparable years whichever they are. */
  lemma {:induction false} RangeIsChronological(moments: seq<Moment>, texts: seq<JsString>, range: TimeRange)
    requires AreTexts(moments, texts)
    ensures IsLeast(range.earliest, texts) && IsGreatest(range.latest, texts) ==>
      (IsFirst(moments, texts, range.earliest) && IsLast(moments, texts, range.latest) <==> AllComparable(moments))
    ensures (forall i :: 0 <= i < |moments| ==> 0 <= moments[i].year <= 9999) ==> AllComparable(moments)
  {
    if IsLeast(range.earliest, texts) && IsGreatest(range.latest, texts) {
      EarliestExactly(moments, texts, range.earliest);
      LatestExactly(moments, texts, range.latest);
      ComparableIsFound(moments);
    }
  }

  lemma {:induction false} ComparableIsFound(moments: seq<Moment>)
    ensures AllComparable(moments) ==> LastIsFound(moments)
  {
    if AllComparable(moments) && moments != [] {
      ComparesWithAllIsFound(moments, 0);
    }
  }

  /** For each kind of incomparable years the later of two events is reported as the earliest. */
  lemma {:induction false} FailingYears(a: Moment, b: Moment)
    requires
      || (a.year == 9999 && b.year == 10_000)
      || (a.year == -1 && b.year == 10_000)
      || (a.year == -2 && b.year == -1)
    ensures EpochMillis(a) < EpochMillis(b) && BundleTimestamp(a) != BundleTimestamp(b)
    ensures forall earliest :: IsLeast(earliest, [BundleTimestamp(a), BundleTimestamp(b)]) ==>
      earliest == BundleTimestamp(b)
  {
    var texts := [BundleTimestamp(a), BundleTimestamp(b)];
    MomentOrder(a, b);
    TextOrderExactly(b, a);
    LessTrichotomy(BundleTimestamp(a), BundleTimestamp(b));
    forall earliest | IsLeast(earliest, texts) ensures earliest == texts[1] {
      assert earliest == texts[0] || earliest == texts[1];
      assert !Less(texts[1], earliest);
    }
  }

  // ----- Histogram -----

  /** A cell of the histogram: a number, or the text that adding 1 to an inherited member makes. */
  datatype Cell = Count(n: int) | NotANumber

  type Histogram = map<JsString, Cell>

  function ProtoSetter(): JsString {
    FromText("__proto__")
  }

  /** The members a plain object inherits from `Object.prototype`. */
  function Inherited(): set<JsString> {
    { ProtoSetter(), FromText("constructor"), FromText("hasOwnProperty"), FromText("isPrototypeOf"),
      FromText("propertyIsEnumerable"),
      FromText("toLocaleString"), FromText("toString"), FromText("valueOf"), FromText("__defineGetter__"),
      FromText("__defineSetter__"), FromText("__lookupGetter__"), FromText("__lookupSetter__") }
  }

  /** `(histogram[key] ?? 0) + 1` */
  function Incremented(h: Histogram, key: JsString): Cell {
    if key in h then (if h[key].Count? then Count(h[key].n + 1) else NotANumber)
    else if key in Inherited() then NotANumber
    else Count(1)
  }

  /** `histogram[key] = cell`; assigning text to `__proto__` does nothing. */
  function Assigned(h: Histogram, key: JsString, cell: Cell): Histogram {
    if key == ProtoSetter() then h else h[key := cell]
  }

  function Occurrences(types: seq<JsString>, key: JsString): nat {
    if types == [] then 0
    else Occurrences(types[..|types| - 1], key) + if types[|types| - 1] == key then 1 else 0
  }

  function CountInherited(types: seq<JsString>): nat {
    if types == [] then 0
    else CountInherited(types[..|types| - 1]) + if types[|types| - 1] in Inherited() then 1 else 0
  }

  /** What the histogram says of one event type. */
  predicate CellOk(h: Histogram, types: seq<JsString>, key: JsString) {
    if key == ProtoSetter() then key !in h
    else
      && (key in h <==> Occurrences(types, key) > 0)
      && (key in h ==> h[key] == if key in Inherited() then NotANumber else Count(Occurrences(types, key)))
  }

  ghost predicate CellsOk(h: Histogram, types: seq<JsString>) {
    forall key :: CellOk(h, types, key)
  }

  ghost function Numbers(h: Histogram): map<JsString, int> {
    map k | k in h :: if h[k].Count? then h[k].n else 0
  }

  /**
   * The histogram counts every event type, except that a type named like a member of `Object.prototype` gets no
   * number; so its numbers sum to the event count exactly when no event has such a type.
   */
  method HistogramOf(types: seq<JsString>) returns (h: Histogram)
    ensures CellsOk(h, types)
    ensures Totals.Sum(Numbers(h)) == |types| - CountInherited(types)
    ensures Totals.Sum(Numbers(h)) == |types| <==> forall i :: 0 <= i < |types| ==> types[i] !in Inherited()
  {
    h := map[];
    assert Numbers(h) == map[];
    for i := 0 to |types|
      invariant CellsOk(h, types[..i])
      invariant Totals.Sum(Numbers(h)) == i - CountInherited(types[..i])
    {
      var key := types[i];
      var next := Assigned(h, key, Incremented(h, key));
      assert types[..i + 1][..i] == types[..i];
      CountOne(h, types[..i + 1], next);
      h := next;
    }
    assert types[..|types|] == types;
    NoneInherited(types);
  }

  lemma CountOne(h: Histogram, types: seq<JsString>, next: Histogram)
    requires types != []
    requires CellsOk(h, types[..|types| - 1])
    requires next == Assigned(h, types[|types| - 1], Incremented(h, types[|types| - 1]))
    ensures CellsOk(next, types)
    ensures Totals.Sum(Numbers(next)) == Totals.Sum(Numbers(h)) + if types[|types| - 1] in Inherited() then 0 else 1
  {
    var before, key := types[..|types| - 1], types[|types| - 1];
    assert CellOk(h, before, key);
    forall k ensures CellOk(next, types, k) {
      assert CellOk(h, before, k);
      assert Occurrences(types, k) == Occurrences(before, k) + if k == key then 1 else 0;
    }
    if key != ProtoSetter() {
      var cell := Incremented(h, key);
      var n := if cell.Count? then cell.n else 0;
      assert Numbers(next) == Numbers(h)[key := n];
      Totals.SumUpdate(Numbers(h), key, n);
    }
  }

  lemma {:induction false} NoneInherited(types: seq<JsString>)
    ensures CountInherited(types) == 0 <==> forall i :: 0 <= i < |types| ==> types[i] !in Inherited()
  {
    if types != [] {
      var before := types[..|types| - 1];
      NoneInherited(before);
      assert forall i :: 0 <= i < |before| ==> before[i] == types[i];
    }
  }
}
