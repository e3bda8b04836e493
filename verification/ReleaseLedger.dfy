/** The alpha train's release states and daily counters, and what every sequence of marks conserves. */
module ReleaseLedger {
  import opened World
  import Totals

  type Release = string

  datatype Candidate = Candidate(release: Release, pythonVersion: string, npmVersion: string)

  datatype Status = Prepared | Processing | Failed | Released | Retired

  datatype Row = Row(pythonVersion: string, npmVersion: string, status: Status, updatedAt: int)

  datatype Kind = PreparedCount | ReleasedCount

  /** A day, counted from the epoch, and what is counted. */
  type Counter = (int, Kind)

  datatype Event = Marked(release: Release, status: Status, idempotent: bool)

  datatype Books = Books(releases: map<Release, Row>, daily: map<Counter, int>)

  const SECONDS_PER_DAY := 86_400

  /** The UTC day of a time in seconds since the epoch. */
  function Day(now: int): int {
    now / SECONDS_PER_DAY
  }

  /** A day has 86400 seconds, and day 0 starts at the epoch. */
  lemma DayBounds(now: int)
    ensures Day(now) * 86400 <= now < (Day(now) + 1) * 86400
  {
  }

  predicate HasStatus(b: Books, r: Release, s: Status) {
    r in b.releases && b.releases[r].status == s
  }

  /** `upsert_release_state` refuses to leave released, and to take a retired release back to prepared or processing. */
  predicate Refused(b: Books, r: Release, s: Status) {
    || (HasStatus(b, r, Released) && s != Released)
    || (HasStatus(b, r, Retired) && (s == Prepared || s == Processing))
  }

  function AfterUpsert(b: Books, c: Candidate, s: Status, now: int): Books {
    if Refused(b, c.release, s) then b
    else b.(releases := b.releases[c.release := Row(c.pythonVersion, c.npmVersion, s, now)])
  }

  function AfterIncrement(b: Books, kind: Kind, now: int): Books {
    var counter := (Day(now), kind);
    b.(daily := b.daily[counter := if counter in b.daily then b.daily[counter] + 1 else 1])
  }

  // ----- Conservation -----

  ghost function ReleasedCounts(daily: map<Counter, int>): map<Counter, int> {
    map c | c in daily && c.1 == ReleasedCount :: daily[c]
  }

  function ReleasedSet(releases: map<Release, Row>): set<Release> {
    set r | r in releases && releases[r].status == Released
  }

  /** The released counts of all days together are the number of released releases. */
  ghost predicate Conserved(b: Books) {
    Totals.Sum(ReleasedCounts(b.daily)) == |ReleasedSet(b.releases)|
  }

  lemma OtherCountsStay(b: Books, now: int)
    ensures ReleasedCounts(AfterIncrement(b, PreparedCount, now).daily) == ReleasedCounts(b.daily)
  {
  }

  lemma ReleasedCountGrows(b: Books, now: int)
    ensures Totals.Sum(ReleasedCounts(AfterIncrement(b, ReleasedCount, now).daily))
         == Totals.Sum(ReleasedCounts(b.daily)) + 1
  {
    var counter := (Day(now), ReleasedCount);
    var counts, after := ReleasedCounts(b.daily), AfterIncrement(b, ReleasedCount, now).daily;
    assert ReleasedCounts(after) == counts[counter := after[counter]];
    assert counter in counts <==> counter in b.daily;
    Totals.SumUpdate(counts, counter, after[counter]);
  }

  lemma ReleasedSetAfterUpsert(b: Books, c: Candidate, s: Status, now: int)
    ensures ReleasedSet(AfterUpsert(b, c, s, now).releases) ==
      ReleasedSet(b.releases) + if s == Released then {c.release} else {}
  {
  }

  /** What every mark and retire operation keeps. */
  ghost predicate Keeps(a: Books, b: Books) {
    && (Conserved(a) ==> Conserved(b))
    && forall r :: HasStatus(a, r, Released) ==> HasStatus(b, r, Released)
  }

  predicate IsActive(b: Books, r: Release) {
    HasStatus(b, r, Prepared) || HasStatus(b, r, Processing)
  }

  /** A retired release stays so, fails, or is released; no operation makes it prepared or processing. */
  ghost predicate RetiredNotRevived(a: Books, b: Books) {
    forall r :: HasStatus(a, r, Retired) ==>
      HasStatus(b, r, Retired) || HasStatus(b, r, Failed) || HasStatus(b, r, Released)
  }

  /** The states of a run, one after another. */
  ghost predicate IsHistory(history: seq<Books>) {
    history != [] && forall i :: 0 <= i < |history| - 1 ==>
      Keeps(history[i], history[i + 1]) && RetiredNotRevived(history[i], history[i + 1])
  }

  lemma {:induction false} ReleasedForGood(history: seq<Books>, r: Release, i: nat, j: nat)
    requires IsHistory(history) && i <= j < |history| && HasStatus(history[i], r, Released)
    ensures HasStatus(history[j], r, Released)
    decreases j - i
  {
    if i < j {
      assert Keeps(history[i], history[i + 1]);
      ReleasedForGood(history, r, i + 1, j);
    }
  }

  /** Over every run, what was retired and is active again was marked failed in between. */
  lemma {:induction false} RevivedOnlyThroughFailed(history: seq<Books>, r: Release, i: nat, j: nat)
    requires IsHistory(history) && i < j < |history|
    requires HasStatus(history[i], r, Retired) && IsActive(history[j], r)
    ensures exists k :: i < k < j && HasStatus(history[k], r, Failed)
    decreases j - i
  {
    assert RetiredNotRevived(history[i], history[i + 1]);
    if HasStatus(history[i + 1], r, Released) {
      ReleasedForGood(history, r, i + 1, j);
    } else if HasStatus(history[i + 1], r, Retired) {
      RevivedOnlyThroughFailed(history, r, i + 1, j);
    } else {
      assert HasStatus(history[i + 1], r, Failed) && i + 1 < j;
    }
  }

  /** An upsert of any other status than released moves no release in or out of the released ones. */
  lemma UpsertKeeps(b: Books, c: Candidate, s: Status, now: int)
    requires s != Released
    ensures Keeps(b, AfterUpsert(b, c, s, now)) && RetiredNotRevived(b, AfterUpsert(b, c, s, now))
  {
    ReleasedSetAfterUpsert(b, c, s, now);
  }

  /** The first release counts once; a repeated one counts nothing. */
  function AfterRelease(b: Books, c: Candidate, now: int): Books {
    var upserted := AfterUpsert(b, c, Released, now);
    if HasStatus(b, c.release, Released) then upserted else AfterIncrement(upserted, ReleasedCount, now)
  }

  lemma ReleaseKeeps(b: Books, c: Candidate, now: int)
    ensures Keeps(b, AfterRelease(b, c, now)) && RetiredNotRevived(b, AfterRelease(b, c, now))
    ensures HasStatus(AfterRelease(b, c, now), c.release, Released)
  {
    var upserted := AfterUpsert(b, c, Released, now);
    ReleasedSetAfterUpsert(b, c, Released, now);
    if HasStatus(b, c.release, Released) {
      assert c.release in ReleasedSet(b.releases);
      assert ReleasedSet(upserted.releases) == ReleasedSet(b.releases);
    } else {
      assert c.release !in ReleasedSet(b.releases);
      ReleasedCountGrows(upserted, now);
    }
  }

  predicate AlreadyPresent(b: Books, r: Release) {
    IsActive(b, r) || HasStatus(b, r, Released)
  }

  function AfterPrepare(b: Books, c: Candidate, now: int): Books {
    var upserted := AfterUpsert(b, c, Prepared, now);
    if AlreadyPresent(b, c.release) then upserted else AfterIncrement(upserted, PreparedCount, now)
  }

  /** Preparing counts a preparation without preparing anything exactly when the release is retired. */
  lemma {:induction false} PreparedCountedExactly(b: Books, c: Candidate, now: int)
    ensures var after := AfterPrepare(b, c, now);
      after.daily != b.daily && !HasStatus(after, c.release, Prepared) <==> HasStatus(b, c.release, Retired)
  {
    var counter, counted := (Day(now), PreparedCount), AfterIncrement(b, PreparedCount, now).daily;
    assert counter in counted && (counter in b.daily ==> counted[counter] != b.daily[counter]);
  }

  /** And that way it comes back: marked failed, it can be prepared. */
  lemma RetiredRevivedThroughFailed(b: Books, c: Candidate, now: int)
    requires HasStatus(b, c.release, Retired)
    ensures var failed := AfterUpsert(b, c, Failed, now);
      HasStatus(failed, c.release, Failed) && HasStatus(AfterUpsert(failed, c, Prepared, now), c.release, Prepared)
  {
  }

  // ----- The store -----

  class Store {
    var releases: map<Release, Row>
    var daily: map<Counter, int>
    var events: seq<Event>

    function View(): Books
      reads this
    {
      Books(releases, daily)
    }

    constructor ()
      ensures releases == map[] && daily == map[] && Conserved(View())
    {
      releases, daily, events := map[], map[], [];
      new;
      assert ReleasedCounts(daily) == map[] && ReleasedSet(releases) == {};
    }

    method UpsertReleaseState(c: Candidate, s: Status, now: int)
      modifies `releases
      ensures View() == AfterUpsert(old(View()), c, s, now)
    {
      var current := if c.release in releases then Some(releases[c.release].status) else None;
      if current == Some(Released) && s != Released {
        return;
      }
      if current == Some(Retired) && (s == Prepared || s == Processing) {
        return;
      }
      releases := releases[c.release := Row(c.pythonVersion, c.npmVersion, s, now)];
    }

    method IncrementDailyCount(kind: Kind, now: int)
      modifies `daily
      ensures View() == AfterIncrement(old(View()), kind, now)
    {
      var counter := (Day(now), kind);
      daily := daily[counter := if counter in daily then daily[counter] + 1 else 1];
    }

    method MarkProcessed(c: Candidate, dryRun: bool, now: int)
      modifies this
      ensures Keeps(old(View()), View()) && RetiredNotRevived(old(View()), View())
      ensures View() == if dryRun then old(View()) else AfterRelease(old(View()), c, now)
      ensures events == old(events) +
        if dryRun then [] else [Marked(c.release, Released, old(HasStatus(View(), c.release, Released)))]
    {
      if dryRun {
        return;
      }
      ReleaseKeeps(View(), c, now);
      var alreadyReleased := HasStatus(View(), c.release, Released);
      UpsertReleaseState(c, Released, now);
      if !alreadyReleased {
        IncrementDailyCount(ReleasedCount, now);
      }
      events := events + [Marked(c.release, Released, alreadyReleased)];
    }

    method MarkPrepared(c: Candidate, dryRun: bool, now: int)
      modifies this
      ensures Keeps(old(View()), View()) && RetiredNotRevived(old(View()), View())
      ensures View() == if dryRun then old(View()) else AfterPrepare(old(View()), c, now)
      ensures events == old(events) +
        if dryRun then [] else [Marked(c.release, Prepared, AlreadyPresent(old(View()), c.release))]
    {
      if dryRun {
        return;
      }
      UpsertKeeps(View(), c, Prepared, now);
      var alreadyPresent := c.release in releases && releases[c.release].status in {Prepared, Processing, Released};
      UpsertReleaseState(c, Prepared, now);
      if !alreadyPresent {
        OtherCountsStay(View(), now);
        IncrementDailyCount(PreparedCount, now);
      }
      events := events + [Marked(c.release, Prepared, alreadyPresent)];
    }

    method MarkProcessing(c: Candidate, dryRun: bool, now: int)
      modifies this
      ensures Keeps(old(View()), View()) && RetiredNotRevived(old(View()), View())
      ensures View() == if dryRun then old(View()) else AfterUpsert(old(View()), c, Processing, now)
      ensures events == old(events) + if dryRun then [] else [Marked(c.release, Processing, false)]
    {
      if dryRun {
        return;
      }
      UpsertKeeps(View(), c, Processing, now);
      UpsertReleaseState(c, Processing, now);
      events := events + [Marked(c.release, Processing, false)];
    }

    method MarkFailed(c: Candidate, dryRun: bool, now: int)
      modifies this
      ensures Keeps(old(View()), View()) && RetiredNotRevived(old(View()), View())
      ensures View() == if dryRun then old(View()) else AfterUpsert(old(View()), c, Failed, now)
      ensures events == old(events) + if dryRun then [] else [Marked(c.release, Failed, false)]
    {
      if dryRun {
        return;
      }
      UpsertKeeps(View(), c, Failed, now);
      UpsertReleaseState(c, Failed, now);
      events := events + [Marked(c.release, Failed, false)];
    }

    /** Retires only what is prepared or processing. */
    method RetirePrepared(c: Candidate, dryRun: bool, now: int)
      modifies this
      ensures Keeps(old(View()), View()) && RetiredNotRevived(old(View()), View())
      ensures var active := !dryRun && old(IsActive(View(), c.release));
        && View() == (if active then AfterUpsert(old(View()), c, Retired, now) else old(View()))
        && events == old(events) + if active then [Marked(c.release, Retired, false)] else []
    {
      if dryRun {
        return;
      }
      if !(c.release in releases && releases[c.release].status in {Prepared, Processing}) {
        return;
      }
      UpsertKeeps(View(), c, Retired, now);
      UpsertReleaseState(c, Retired, now);
      events := events + [Marked(c.release, Retired, false)];
    }

    method AnyMark()
      modifies this
      ensures Keeps(old(View()), View()) && RetiredNotRevived(old(View()), View())
    {
      var choice := Answer<int>();
      var c := Answer<Candidate>();
      var dryRun := Answer<bool>();
      var now := Answer<int>();
      if choice == 0 {
        MarkProcessed(c, dryRun, now);
      } else if choice == 1 {
        MarkPrepared(c, dryRun, now);
      } else if choice == 2 {
        MarkProcessing(c, dryRun, now);
      } else if choice == 3 {
        MarkFailed(c, dryRun, now);
      } else {
        RetirePrepared(c, dryRun, now);
      }
    }

    /**
     * Over any number of marks: conservation, released is absorbing, and a retired release becomes prepared or
     * processing again only after a failed mark.
     */
    method Run(marks: nat) returns (ghost history: seq<Books>)
      modifies this
      ensures Keeps(old(View()), View())
      ensures old(releases) == map[] && old(daily) == map[] ==> Conserved(View())
      ensures IsHistory(history) && |history| == marks + 1 && history[0] == old(View()) && history[marks] == View()
      ensures forall r, i, j :: 0 <= i < j <= marks && HasStatus(history[i], r, Retired) && IsActive(history[j], r) ==>
        exists k :: i < k < j && HasStatus(history[k], r, Failed)
    {
      history := [View()];
      assert old(releases) == map[] && old(daily) == map[] ==> Conserved(View()) by {
        if old(releases) == map[] && old(daily) == map[] {
          assert ReleasedCounts(daily) == map[] && ReleasedSet(releases) == {};
        }
      }
      for mark := 0 to marks
        invariant Keeps(old(View()), View())
        invariant IsHistory(history) && |history| == mark + 1 && history[0] == old(View()) && history[mark] == View()
      {
        AnyMark();
        history := history + [View()];
      }
      forall r, i, j | 0 <= i < j <= marks && HasStatus(history[i], r, Retired) && IsActive(history[j], r)
        ensures exists k :: i < k < j && HasStatus(history[k], r, Failed)
      {
        RevivedOnlyThroughFailed(history, r, i, j);
      }
    }
  }
}
