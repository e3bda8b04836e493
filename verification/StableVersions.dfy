/** Stable version numbers: the successor rule and the search for the next free one. */
module StableVersions {
  import opened Utf16
  import opened Decimal

  const PATCH_ROLLOVER := 10

  datatype Version = Version(major: nat, minor: nat, patch: nat)

  /** The release label of the merged pull request; `release:patch`, `release:none` and no label count alike. */
  datatype Bump = MajorBump | MinorBump | NoBump

  /** The order of the dataclass: field by field. */
  predicate Before(a: Version, b: Version) {
    a.major < b.major || (a.major == b.major && (a.minor < b.minor || (a.minor == b.minor && a.patch < b.patch)))
  }

  function NextStableAfter(v: Version, bump: Bump): Version {
    if bump == MajorBump then Version(v.major + 1, 0, 0)
    else if bump == MinorBump then Version(v.major, v.minor + 1, 0)
    else if v.major == 0 && v.minor >= 9 && v.patch >= PATCH_ROLLOVER then Version(1, 0, 0)
    else if v.patch >= PATCH_ROLLOVER then Version(v.major, v.minor + 1, 0)
    else Version(v.major, v.minor, v.patch + 1)
  }

  /** The k-th version after v under one label. */
  function Successor(v: Version, bump: Bump, k: nat): Version {
    if k == 0 then v else NextStableAfter(Successor(v, bump, k - 1), bump)
  }

  /** Every label moves strictly forward, so no version comes twice. */
  lemma {:induction false} SuccessorsAscend(v: Version, bump: Bump, j: nat, k: nat)
    requires j < k
    ensures Before(Successor(v, bump, j), Successor(v, bump, k))
  {
    if j < k - 1 {
      SuccessorsAscend(v, bump, j, k - 1);
    }
  }

  /** A major label gives the least version of a later major, a minor label the least of a later minor. */
  lemma LabelledIsLeast(v: Version, w: Version)
    ensures var major := NextStableAfter(v, MajorBump);
      major.major > v.major && (w.major > v.major ==> !Before(w, major))
    ensures var minor := NextStableAfter(v, MinorBump);
      && minor.major == v.major && minor.minor > v.minor
      && (w.major == v.major && w.minor > v.minor ==> !Before(w, minor))
  {
  }

  // ----- Tags -----

  /** `v` and the three numbers, joined by dots. */
  function Tag(v: Version): JsString {
    [0x76] + Dotted([v.major, v.minor, v.patch])
  }

  lemma TagDeterminesVersion(v: Version, w: Version)
    ensures Tag(v) == Tag(w) <==> v == w
  {
    DottedDeterminesNumbers([v.major, v.minor, v.patch]);
    DottedDeterminesNumbers([w.major, w.minor, w.patch]);
    assert Tag(v)[1..] == Dotted([v.major, v.minor, v.patch]);
    assert Tag(w)[1..] == Dotted([w.major, w.minor, w.patch]);
    if Tag(v) == Tag(w) {
      assert [v.major, v.minor, v.patch] == [w.major, w.minor, w.patch];
      assert [v.major, v.minor, v.patch][0] == v.major && [v.major, v.minor, v.patch][1] == v.minor;
      assert [w.major, w.minor, w.patch][0] == w.major && [w.major, w.minor, w.patch][1] == w.minor;
      assert [v.major, v.minor, v.patch][2] == v.patch && [w.major, w.minor, w.patch][2] == w.patch;
    }
  }

  predicate IsFree(v: Version, abandoned: set<JsString>, existing: set<JsString>) {
    Tag(v) !in abandoned && Tag(v) !in existing
  }

  /** The tags of the successors before the k-th. */
  ghost function TagsPassed(v: Version, bump: Bump, k: nat): set<JsString> {
    if k <= 1 then {} else TagsPassed(v, bump, k - 1) + {Tag(Successor(v, bump, k - 1))}
  }

  lemma {:induction false} PassedTag(v: Version, bump: Bump, k: nat, t: JsString)
    requires t in TagsPassed(v, bump, k)
    ensures exists j :: 1 <= j < k && t == Tag(Successor(v, bump, j))
  {
    if t != Tag(Successor(v, bump, k - 1)) {
      PassedTag(v, bump, k - 1, t);
    }
  }

  lemma SuccessorTagsDiffer(v: Version, bump: Bump, j: nat, k: nat)
    requires j < k
    ensures Tag(Successor(v, bump, j)) != Tag(Successor(v, bump, k))
  {
    var x, y := Successor(v, bump, j), Successor(v, bump, k);
    SuccessorsAscend(v, bump, j, k);
    TagDeterminesVersion(x, y);
  }

  lemma NextTagNotPassed(v: Version, bump: Bump, k: nat)
    ensures Tag(Successor(v, bump, k)) !in TagsPassed(v, bump, k)
  {
    var t := Tag(Successor(v, bump, k));
    if t in TagsPassed(v, bump, k) {
      PassedTag(v, bump, k, t);
      var j :| 1 <= j < k && t == Tag(Successor(v, bump, j));
      SuccessorTagsDiffer(v, bump, j, k);
    }
  }

  /** No tag is passed twice. */
  lemma {:induction false} TagsPassedCount(v: Version, bump: Bump, k: nat)
    requires k >= 1
    ensures |TagsPassed(v, bump, k)| == k - 1
  {
    if k > 1 {
      TagsPassedCount(v, bump, k - 1);
      NextTagNotPassed(v, bump, k - 1);
    }
  }

  /**
   * Against any finite sets of abandoned and existing tags the search ends, and returns the first free version of
   * the successor sequence: the tags passed over are all taken, and none comes twice.
   */
  method NextUnabandonedStableAfter(v: Version, bump: Bump, abandoned: set<JsString>, existing: set<JsString>)
    returns (candidate: Version)
    ensures IsFree(candidate, abandoned, existing)
    ensures exists k :: 1 <= k <= |abandoned + existing| + 1 && candidate == Successor(v, bump, k)
                        && forall j :: 1 <= j < k ==> !IsFree(Successor(v, bump, j), abandoned, existing)
  {
    candidate := NextStableAfter(v, bump);
    ghost var k := 1;
    ghost var taken := abandoned + existing;
    assert candidate == NextStableAfter(Successor(v, bump, 0), bump);
    while Tag(candidate) in abandoned || Tag(candidate) in existing
      invariant 1 <= k <= |taken| + 1 && candidate == Successor(v, bump, k)
      invariant forall j :: 1 <= j < k ==> !IsFree(Successor(v, bump, j), abandoned, existing)
      invariant TagsPassed(v, bump, k) <= taken
      decreases |taken| + 1 - k
    {
      candidate := NextStableAfter(candidate, bump);
      k := k + 1;
      TagsPassedCount(v, bump, k);
      SubsetCount(TagsPassed(v, bump, k), taken);
    }
  }

  lemma SubsetCount(a: set<JsString>, b: set<JsString>)
    requires a <= b
    ensures |a| <= |b|
  {
    assert b == a + (b - a);
  }

  // ----- Unlabelled versions from 0.0.0 on are the naturals -----

  /** The versions the unlabelled train passes through: 0.0.0 to 0.9.10, then 1.0.0 onwards. */
  predicate OnTrain(v: Version) {
    v.patch <= PATCH_ROLLOVER && (v.major == 1 || (v.major == 0 && v.minor <= 9))
  }

  function Rank(v: Version): nat {
    (if v.major == 1 then 110 else 0) + 11 * v.minor + v.patch
  }

  function VersionAt(n: nat): Version {
    if n < 110 then Version(0, n / 11, n % 11) else Version(1, (n - 110) / 11, (n - 110) % 11)
  }

  lemma RankOfVersionAt(n: nat)
    ensures OnTrain(VersionAt(n)) && Rank(VersionAt(n)) == n
  {
  }

  lemma VersionAtRank(v: Version)
    requires OnTrain(v)
    ensures VersionAt(Rank(v)) == v
  {
    DivideByEleven(v.minor, v.patch);
    assert v.major == 1 ==> Rank(v) - 110 == 11 * v.minor + v.patch;
  }

  lemma DivideByEleven(q: nat, r: nat)
    requires r < 11
    ensures (11 * q + r) / 11 == q && (11 * q + r) % 11 == r
  {
  }

  /** The n-th unlabelled version after 0.0.0 is the version of rank n, the jump from 0.9.10 to 1.0.0 included. */
  lemma {:induction false} UnlabelledSuccessors(n: nat)
    ensures Successor(Version(0, 0, 0), NoBump, n) == VersionAt(n)
  {
    if n > 0 {
      UnlabelledSuccessors(n - 1);
      var before := VersionAt(n - 1);
      RankOfVersionAt(n - 1);
      var after := NextStableAfter(before, NoBump);
      assert OnTrain(after) && Rank(after) == n;
      VersionAtRank(after);
    }
  }

  /** Ranks order the train's versions as the version order does. */
  lemma RankOrder(v: Version, w: Version)
    requires OnTrain(v) && OnTrain(w)
    ensures Rank(v) < Rank(w) <==> Before(v, w)
  {
  }
}
