/** The singleton merge lock: one database row, taken with a time-to-live and a check of the holder's process. */
module MergeLock {
  import opened World

  datatype Owner = Owner(workflowId: string, runId: string)

  datatype Process = Process(host: string, pid: int)

  /** `acquiredAt` counts microseconds, the resolution of Python's clock, but is stored in whole seconds. */
  datatype LockRow = LockRow(holder: Process, owner: Owner, prNumber: int, acquiredAt: int)

  const SECOND: int := 1_000_000
  const MERGE_LOCK_TTL: int := 3000 * SECOND
  const MAX_STAY: int := 2700 * SECOND

  function WholeSeconds(now: int): int {
    now - now % SECOND
  }

  /** Whether the holder counts as alive for a caller on `host`: other hosts' processes cannot be probed. */
  predicate SeenAlive(holder: Process, host: string, live: set<Process>) {
    holder.host == host ==> holder in live
  }

  predicate OwnedBy(row: Option<LockRow>, owner: Owner) {
    row.Some? && row.value.owner == owner
  }

  /** The row stands against `owner`: someone else's, its holder seen alive, and younger than the TTL. */
  predicate Held(row: Option<LockRow>, owner: Owner, host: string, now: int, live: set<Process>) {
    && row.Some?
    && row.value.owner != owner
    && SeenAlive(row.value.holder, host, live)
    && now - row.value.acquiredAt < MERGE_LOCK_TTL
  }

  function RowAfterRelease(row: Option<LockRow>, owner: Owner): Option<LockRow> {
    if OwnedBy(row, owner) then None else row
  }

  /** The lock table behind its mutex and connection. */
  class LockTable {
    var row: Option<LockRow>

    constructor ()
      ensures row == None
    {
      row := None;
    }

    /**
     * `busy`: another writer holds the database, so BEGIN IMMEDIATE fails. `fault`: a statement of the
     * transaction raises, so it is rolled back. `now` is the caller's clock, read before the transaction.
     */
    method Acquire(owner: Owner, process: Process, prNumber: int, now: int, live: set<Process>, busy: bool, fault: bool)
      returns (acquired: bool)
      modifies this
      ensures acquired <==> !busy && !fault && !Held(old(row), owner, process.host, now, live)
      ensures !busy && !fault ==> (!acquired <==>
        && old(row).Some? && old(row).value.owner != owner
        && now - old(row).value.acquiredAt < 3_000_000_000
        && (old(row).value.holder.host != process.host || old(row).value.holder in live))
      ensures acquired ==> row == Some(LockRow(process, owner, prNumber, WholeSeconds(now)))
      ensures acquired ==> row.value.acquiredAt == now - now % 1_000_000
      ensures !acquired ==> row == old(row)
    {
      if busy {
        return false;
      }
      var before := row;
      if row.Some? {
        if row.value.owner == owner {
          row := None;
        } else {
          var alive := true;
          if row.value.holder.host == process.host {
            alive := row.value.holder in live;
          }
          var age := now - row.value.acquiredAt;
          if alive && age < MERGE_LOCK_TTL {
            row := before;
            return false;
          }
          row := None;
        }
      }
      if fault {
        row := before;
        return false;
      }
      row := Some(LockRow(process, owner, prNumber, WholeSeconds(now)));
      return true;
    }

    method Verify(owner: Owner) returns (held: bool)
      ensures held <==> OwnedBy(row, owner)
    {
      held := row.Some? && row.value.owner == owner;
    }

    /** Releasing a lock someone else holds, or nobody, changes nothing. */
    method Release(owner: Owner)
      modifies this
      ensures row == RowAfterRelease(old(row), owner)
      ensures !old(OwnedBy(row, owner)) ==> row == old(row)
      ensures !OwnedBy(row, owner)
    {
      if row.Some? && row.value.owner == owner {
        row := None;
      }
    }
  }

  // ----- Runs of many workers on many hosts over one row -----

  /** One execution of the merge activity: inside its critical section since a moment, or past it, about to release. */
  datatype Attempt =
    | Inside(owner: Owner, process: Process, since: int)
    | Leaving(owner: Owner, process: Process)

  datatype State = State(row: Option<LockRow>, clock: int, live: set<Process>, attempts: map<nat, Attempt>)

  /**
   * What the surroundings guarantee. A clock reading used by `Acquire` is at most `early` ahead of and `late`
   * behind the true time of its transaction. `overlap`: a retry may start while an attempt of the same
   * owner is still running.
   */
  datatype Setting = Setting(early: nat, late: nat, overlap: bool)

  datatype Event =
    | TryAcquire(id: nat, owner: Owner, process: Process, prNumber: int, now: int)
    | Leave(id: nat)
    | RunRelease(id: nat)
    | LoseRelease(id: nat)
    | Crash(process: Process)
    | Start(process: Process)
    | Tick(elapsed: nat)

  predicate Initial(s: State) {
    s.row == None && s.attempts == map[]
  }

  predicate IsInside(s: State, id: nat) {
    id in s.attempts && s.attempts[id].Inside?
  }

  /** Time passes only as far as no attempt outstays its critical section. */
  ghost predicate Enabled(setting: Setting, s: State, e: Event) {
    match e
    case TryAcquire(id, owner, process, _, now) =>
      && id !in s.attempts
      && process in s.live
      && s.clock - setting.late <= now <= s.clock + setting.early
      && (setting.overlap || forall k <- s.attempts :: s.attempts[k].owner != owner)
    case Leave(id) => IsInside(s, id)
    case RunRelease(id) => id in s.attempts && s.attempts[id].Leaving?
    case LoseRelease(id) => id in s.attempts && s.attempts[id].Leaving?
    case Crash(process) => process in s.live
    case Start(_) => true
    case Tick(elapsed) => forall id :: IsInside(s, id) ==> s.clock + elapsed - s.attempts[id].since <= MAX_STAY
  }

  function Next(s: State, e: Event): State {
    match e
    case TryAcquire(id, owner, process, prNumber, now) =>
      if Held(s.row, owner, process.host, now, s.live) then s
      else s.(row := Some(LockRow(process, owner, prNumber, WholeSeconds(now))),
              attempts := s.attempts[id := Inside(owner, process, s.clock)])
    case Leave(id) =>
      if id !in s.attempts then s
      else s.(attempts := s.attempts[id := Leaving(s.attempts[id].owner, s.attempts[id].process)])
    case RunRelease(id) =>
      if id !in s.attempts then s
      else s.(row := RowAfterRelease(s.row, s.attempts[id].owner), attempts := s.attempts - {id})
    case LoseRelease(id) => s.(attempts := s.attempts - {id})
    case Crash(process) =>
      s.(live := s.live - {process},
         attempts := map id | id in s.attempts && s.attempts[id].process != process :: s.attempts[id])
    case Start(process) => s.(live := s.live + {process})
    case Tick(elapsed) => s.(clock := s.clock + elapsed)
  }

  ghost predicate Legal(setting: Setting, s: State, run: seq<Event>)
    decreases |run|
  {
    run == [] || (Enabled(setting, s, run[0]) && Legal(setting, Next(s, run[0]), run[1..]))
  }

  function After(s: State, run: seq<Event>): State
    decreases |run|
  {
    if run == [] then s else After(Next(s, run[0]), run[1..])
  }

  /** No two owners are in the critical section together. */
  ghost predicate MutualExclusion(s: State) {
    forall i, j :: IsInside(s, i) && IsInside(s, j) ==> s.attempts[i].owner == s.attempts[j].owner
  }

  // ----- When mutual exclusion holds -----

  /** Retries wait for the attempt before them, and clocks err by at most 299 seconds together. */
  predicate Safe(setting: Setting) {
    !setting.overlap && setting.early + setting.late <= 299 * SECOND
  }

  /** Every attempt inside owns the row, through its own living process, with a time stamp not too old. */
  ghost predicate Guarded(setting: Setting, s: State, id: nat)
    requires IsInside(s, id)
  {
    var a := s.attempts[id];
    && OwnedBy(s.row, a.owner)
    && s.row.value.holder == a.process
    && a.process in s.live
    && a.since - setting.late - SECOND < s.row.value.acquiredAt
    && s.clock - a.since <= MAX_STAY
  }

  ghost predicate Inv(setting: Setting, s: State) {
    && (forall id :: IsInside(s, id) ==> Guarded(setting, s, id))
    && (forall i, j :: i in s.attempts && j in s.attempts && i != j ==> s.attempts[i].owner != s.attempts[j].owner)
  }

  /** While an attempt is inside, nobody else's acquire gets past its row. */
  lemma InsideRefusesOthers(setting: Setting, s: State, id: nat, owner: Owner, host: string, now: int)
    requires Safe(setting)
    requires IsInside(s, id) && Guarded(setting, s, id)
    requires owner != s.attempts[id].owner
    requires now <= s.clock + setting.early
    ensures Held(s.row, owner, host, now, s.live)
  {
  }

  lemma StepKeepsInv(setting: Setting, s: State, e: Event)
    requires Safe(setting) && Inv(setting, s) && Enabled(setting, s, e)
    ensures Inv(setting, Next(s, e))
  {
    var t := Next(s, e);
    forall k | IsInside(t, k) ensures Guarded(setting, t, k) {
      if e.TryAcquire? {
        if t != s && k != e.id {
          assert IsInside(s, k);
          InsideRefusesOthers(setting, s, k, e.owner, e.process.host, e.now);
        }
      } else {
        assert IsInside(s, k) && s.attempts[k] == t.attempts[k];
        if e.RunRelease? {
          assert s.attempts[k].owner != s.attempts[e.id].owner;
        }
      }
    }
  }

  lemma {:induction false} RunKeepsInv(setting: Setting, s: State, run: seq<Event>)
    requires Safe(setting) && Inv(setting, s) && Legal(setting, s, run)
    ensures Inv(setting, After(s, run))
    decreases |run|
  {
    if run != [] {
      StepKeepsInv(setting, s, run[0]);
      RunKeepsInv(setting, Next(s, run[0]), run[1..]);
    }
  }

  lemma SafeRun(setting: Setting, s: State, run: seq<Event>)
    requires Safe(setting) && Initial(s) && Legal(setting, s, run)
    ensures MutualExclusion(After(s, run))
  {
    RunKeepsInv(setting, s, run);
    var t := After(s, run);
    forall i, j | IsInside(t, i) && IsInside(t, j) ensures t.attempts[i].owner == t.attempts[j].owner {
      assert Guarded(setting, t, i) && Guarded(setting, t, j);
    }
  }

  /**
   * The check just before the squash-merge: after any safe run, an attempt inside is told that it still
   * holds the lock, and every other owner that it does not.
   */
  lemma VerifyNeverMisleads(setting: Setting, s: State, run: seq<Event>, id: nat, owner: Owner)
    requires Safe(setting) && Initial(s) && Legal(setting, s, run)
    requires IsInside(After(s, run), id)
    ensures OwnedBy(After(s, run).row, owner) <==> owner == After(s, run).attempts[id].owner
  {
    RunKeepsInv(setting, s, run);
    assert Guarded(setting, After(s, run), id);
  }

  // ----- A dead holder does not stand -----

  /**
   * In any state, an attempt gets in exactly if the row is free, its own, 3000 seconds old by its clock, or that of a
   * process of its own host that is not alive; and then the row is its own.
   */
  lemma EntersExactly(s: State, id: nat, owner: Owner, process: Process, prNumber: int, now: int)
    requires id !in s.attempts
    ensures var t := Next(s, TryAcquire(id, owner, process, prNumber, now));
      && (IsInside(t, id) <==>
            || s.row == None || s.row.value.owner == owner || now - s.row.value.acquiredAt >= 3_000_000_000
            || (s.row.value.holder.host == process.host && s.row.value.holder !in s.live))
      && (if IsInside(t, id) then t.row == Some(LockRow(process, owner, prNumber, now - now % 1_000_000)) else t == s)
  {
  }

  lemma {:induction false} StaysDead(s: State, process: Process, run: seq<Event>)
    requires process !in s.live && Start(process) !in run
    ensures process !in After(s, run).live
    decreases |run|
  {
    if run != [] {
      StaysDead(Next(s, run[0]), process, run[1..]);
    }
  }

  /**
   * Once the holder's process has died and as long as that process is not started again, whatever else happens: while
   * its row is there, every attempt from its own host gets in at once, and one of another owner from another host
   * exactly when the row is 3000 seconds old by its clock.
   */
  lemma DeadHolderReplaced(s: State, holder: Process, run: seq<Event>, id: nat, owner: Owner, process: Process,
          prNumber: int, now: int)
    requires Start(holder) !in run
    ensures var t := After(Next(s, Crash(holder)), run);
      var u := Next(t, TryAcquire(id, owner, process, prNumber, now));
      id !in t.attempts && t.row.Some? && t.row.value.holder == holder ==>
        && (process.host == holder.host ==> IsInside(u, id) && OwnedBy(u.row, owner))
        && (process.host != holder.host && t.row.value.owner != owner ==>
              (IsInside(u, id) <==> now - t.row.value.acquiredAt >= 3_000_000_000))
  {
    StaysDead(Next(s, Crash(holder)), holder, run);
    var t := After(Next(s, Crash(holder)), run);
    if id !in t.attempts {
      EntersExactly(t, id, owner, process, prNumber, now);
    }
  }

  // ----- And when it does not -----

  const HOST_A: Process := Process("a", 1)
  const HOST_B: Process := Process("b", 1)
  const FIRST: Owner := Owner("first", "run")
  const SECOND_OWNER: Owner := Owner("second", "run")

  /** The later attempt of an owner releases the row under the earlier one, which is still inside. */
  lemma OverlapBreaks(setting: Setting)
    requires setting.overlap
    ensures exists s, run :: Initial(s) && Legal(setting, s, run) && !MutualExclusion(After(s, run))
  {
    var s0 := State(None, 0, {HOST_A, HOST_B}, map[]);
    var e1, e2 := TryAcquire(1, FIRST, HOST_A, 0, 0), TryAcquire(2, FIRST, HOST_B, 0, 0);
    var e5 := TryAcquire(3, SECOND_OWNER, HOST_B, 0, 0);
    var run := [e1, e2, Leave(2), RunRelease(2), e5];
    var s1 := Next(s0, e1);
    var s2 := Next(s1, e2);
    var s3 := Next(s2, Leave(2));
    var s4 := Next(s3, RunRelease(2));
    var s5 := Next(s4, e5);
    Unfold5(setting, s0, run);
    assert s4.row == None && IsInside(s4, 1);
    assert IsInside(s5, 1) && IsInside(s5, 3);
    assert s5.attempts[1].owner == FIRST && s5.attempts[3].owner == SECOND_OWNER;
    assert FIRST.workflowId[0] != SECOND_OWNER.workflowId[0];
  }

  lemma Unfold3(setting: Setting, s: State, run: seq<Event>)
    requires |run| == 3
    ensures Legal(setting, s, run) <==>
      && Enabled(setting, s, run[0])
      && Enabled(setting, Next(s, run[0]), run[1])
      && Enabled(setting, Next(Next(s, run[0]), run[1]), run[2])
    ensures After(s, run) == Next(Next(Next(s, run[0]), run[1]), run[2])
  {
    var t := Next(s, run[0]);
    assert run[1..][1..] == [run[2]] && [run[2]][1..] == [];
    var u := Next(t, run[1]);
    assert Legal(setting, t, run[1..]) <==> Enabled(setting, t, run[1]) && Legal(setting, u, [run[2]]);
    assert After(t, run[1..]) == After(u, [run[2]]);
    assert Legal(setting, u, [run[2]]) <==> Enabled(setting, u, run[2]);
    assert After(u, [run[2]]) == Next(u, run[2]);
  }

  lemma Unfold5(setting: Setting, s: State, run: seq<Event>)
    requires |run| == 5
    ensures Legal(setting, s, run) <==>
      var t := Next(Next(s, run[0]), run[1]);
      && Enabled(setting, s, run[0])
      && Enabled(setting, Next(s, run[0]), run[1])
      && Enabled(setting, t, run[2])
      && Enabled(setting, Next(t, run[2]), run[3])
      && Enabled(setting, Next(Next(t, run[2]), run[3]), run[4])
    ensures After(s, run) == Next(Next(Next(Next(Next(s, run[0]), run[1]), run[2]), run[3]), run[4])
  {
    var t := Next(Next(s, run[0]), run[1]);
    assert run[1..][1..] == run[2..];
    assert Legal(setting, Next(s, run[0]), run[1..]) <==>
      Enabled(setting, Next(s, run[0]), run[1]) && Legal(setting, t, run[2..]);
    assert After(Next(s, run[0]), run[1..]) == After(t, run[2..]);
    Unfold3(setting, t, run[2..]);
  }

  /** With more clock error the row looks expired to another host while its owner is still inside. */
  lemma SkewBreaks(setting: Setting)
    requires setting.early + setting.late > 299 * SECOND
    ensures exists s, run :: Initial(s) && Legal(setting, s, run) && !MutualExclusion(After(s, run))
  {
    var start := setting.late + SECOND - 1;
    var s0 := State(None, start, {HOST_A, HOST_B}, map[]);
    var e1 := TryAcquire(1, FIRST, HOST_A, 0, start - setting.late);
    var e3 := TryAcquire(2, SECOND_OWNER, HOST_B, 0, start + MAX_STAY + setting.early);
    var run := [e1, Tick(MAX_STAY), e3];
    var s1 := Next(s0, e1);
    assert s1.row == Some(LockRow(HOST_A, FIRST, 0, 0));
    var s2 := Next(s1, Tick(MAX_STAY));
    var s3 := Next(s2, e3);
    Unfold3(setting, s0, run);
    assert FIRST.workflowId[0] != SECOND_OWNER.workflowId[0];
    assert IsInside(s3, 1) && IsInside(s3, 2);
    assert s3.attempts[1].owner == FIRST && s3.attempts[2].owner == SECOND_OWNER;
  }

  /**
   * Mutual exclusion over every run holds exactly in the safe settings: the 300 seconds between the TTL and
   * the longest stay absorb one second of truncation and 299 seconds of clock error, and nothing
   * protects two overlapping attempts of one owner.
   */
  lemma MutualExclusionExactly(setting: Setting)
    ensures Safe(setting) <==>
      forall s, run :: Initial(s) && Legal(setting, s, run) ==> MutualExclusion(After(s, run))
  {
    if Safe(setting) {
      forall s, run | Initial(s) && Legal(setting, s, run) ensures MutualExclusion(After(s, run)) {
        SafeRun(setting, s, run);
      }
    } else if setting.overlap {
      OverlapBreaks(setting);
    } else {
      SkewBreaks(setting);
    }
  }
}
