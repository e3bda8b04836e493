/** What every operation on the push queue's tables keeps, and so what holds over all runs. */
module PushLedger {
  import opened World
  import opened PushQueue

  function Attempts(t: Tables, k: Key): int {
    if k in t.tasks then t.tasks[k].attempts else 0
  }

  /** How often a `git_push_cooldown` event was logged for a task. */
  function Cooldowns(events: seq<Event>, k: Key): nat {
    if events == [] then 0
    else Cooldowns(events[..|events| - 1], k) + if events[|events| - 1] == TaskUpdated(k, Cooldown) then 1 else 0
  }

  predicate IsDone(t: Tables, k: Key) {
    k in t.tasks && t.tasks[k].status == Done
  }

  predicate IsStageDone(t: Tables, release: Release, stage: Stage) {
    (release, stage) in t.stages && t.stages[(release, stage)] == StageDone
  }

  /** Every task's attempts are its logged cooldowns. */
  ghost predicate Counted(t: Tables) {
    forall k :: Attempts(t, k) == Cooldowns(t.events, k)
  }

  /** Every done task has its stage row done. */
  ghost predicate DoneStaged(t: Tables) {
    forall k :: IsDone(t, k) ==> IsStageDone(t, k.release, StageName(k.ref))
  }

  /** A task that was done is as it was. */
  ghost predicate DoneStays(a: Tables, b: Tables) {
    forall k :: IsDone(a, k) ==> IsDone(b, k) && b.tasks[k] == a.tasks[k]
  }

  /** The main push of a release is done, but its stage is not. */
  predicate Stuck(t: Tables, release: Release) {
    IsDone(t, Key(release, Main)) && !IsStageDone(t, release, MainPushed)
  }

  /** What every operation keeps, whatever raises in it; the last clause says that a stuck main push stays stuck. */
  ghost predicate Keeps(a: Tables, b: Tables) {
    && (Counted(a) ==> Counted(b))
    && DoneStays(a, b)
    && forall r :: Stuck(a, r) ==> Stuck(b, r)
  }

  lemma KeepsRefl(a: Tables)
    ensures Keeps(a, a)
  {
  }

  lemma KeepsTransitive(a: Tables, b: Tables, c: Tables)
    requires Keeps(a, b) && Keeps(b, c)
    ensures Keeps(a, c)
  {
    forall k | IsDone(a, k) ensures IsDone(c, k) && c.tasks[k] == a.tasks[k] {
      assert IsDone(b, k);
    }
  }

  lemma LoggedEvent(events: seq<Event>, e: Event, k: Key)
    ensures Cooldowns(events + [e], k) == Cooldowns(events, k) + if e == TaskUpdated(k, Cooldown) then 1 else 0
  {
    assert (events + [e])[..|events|] == events;
  }

  lemma StageRefs(r: Ref, s: Ref)
    ensures StageName(r) == StageName(s) <==> r == s
  {
  }

  // ----- Marking a stage -----

  /** Marking is harmless unless it takes a done task's stage back, or marks a main push done that no update did. */
  lemma {:induction false} MarkKeeps(t: Tables, release: Release, ref: Ref, status: StageStatus)
    requires status == StageQueued ==> !IsStageDone(t, release, StageName(ref))
    requires ref == Main ==> status == StageQueued
    ensures Keeps(t, AfterMark(t, release, StageName(ref), status))
    ensures DoneStaged(t) ==> DoneStaged(AfterMark(t, release, StageName(ref), status))
  {
    var stage := StageName(ref);
    var after := AfterMark(t, release, stage, status);
    forall k ensures Attempts(after, k) == Attempts(t, k) && Cooldowns(after.events, k) == Cooldowns(t.events, k) {
      LoggedEvent(t.events, StageMarked(release, stage, status), k);
    }
    forall k | IsDone(after, k) && DoneStaged(t) ensures IsStageDone(after, k.release, StageName(k.ref)) {
      assert IsDone(t, k);
      StageRefs(k.ref, ref);
    }
  }

  // ----- Enqueueing -----

  lemma {:induction false} EnqueueKeeps(t: Tables, key: Key, clock: int)
    ensures Keeps(t, AfterEnqueue(t, key, clock))
    ensures DoneStaged(t) ==> DoneStaged(AfterEnqueue(t, key, clock))
  {
    var after := AfterEnqueue(t, key, clock);
    if !IsDone(t, key) {
      forall k ensures Attempts(after, k) == Attempts(t, k) && Cooldowns(after.events, k) == Cooldowns(t.events, k) {
        LoggedEvent(t.events, TaskQueued(key), k);
      }
      forall k | IsDone(after, k) ensures IsDone(t, k) && k != key {
      }
    }
  }

  // ----- Updating -----

  /** Each of the two transactions of an update keeps the count. */
  lemma WriteCounted(t: Tables, w: Write, now: int, defaultSeconds: int)
    requires Counted(t)
    ensures Counted(AfterTaskUpdate(t, w.p, now, defaultSeconds))
    ensures Counted(AfterWrite(t, w, now, defaultSeconds))
  {
    var half, after := AfterTaskUpdate(t, w.p, now, defaultSeconds), AfterUpdate(t, w.p, now, defaultSeconds);
    var mark := StageMarked(w.p.key.release, StageName(w.p.key.ref), StageAfter(w.p.Status()));
    forall k
      ensures Attempts(half, k) == Cooldowns(half.events, k) && Attempts(after, k) == Cooldowns(after.events, k)
    {
      assert Attempts(t, k) == Cooldowns(t.events, k);
      LoggedEvent(t.events, TaskUpdated(w.p.key, w.p.Status()), k);
      LoggedEvent(half.events, mark, k);
    }
  }

  lemma {:induction false} AllCounted(t: Tables, ps: seq<Processed>, now: int, defaultSeconds: int)
    requires Counted(t)
    ensures Counted(AfterAll(t, ps, now, defaultSeconds))
  {
    if ps != [] {
      AllCounted(t, ps[..|ps| - 1], now, defaultSeconds);
      WriteCounted(AfterAll(t, ps[..|ps| - 1], now, defaultSeconds), Write(ps[|ps| - 1], NoFault), now, defaultSeconds);
    }
  }

  lemma PassCounted(t: Tables, ps: seq<Processed>, e: Ending, now: int, defaultSeconds: int)
    requires Counted(t)
    ensures Counted(AfterPass(t, ps, e, now, defaultSeconds))
  {
    var all := AfterAll(t, ps, now, defaultSeconds);
    AllCounted(t, ps, now, defaultSeconds);
    match e
    case Whole =>
    case Aborted(w) =>
      WriteCounted(all, w, now, defaultSeconds);
    case Handled(w, h) =>
      WriteCounted(all, w, now, defaultSeconds);
      WriteCounted(AfterWrite(all, w, now, defaultSeconds), h, now, defaultSeconds);
  }

  /** A whole pass over tasks that are not done, whatever raises in it. */
  lemma {:induction false} PassKeeps(t: Tables, ps: seq<Processed>, e: Ending, now: int, defaultSeconds: int)
    requires forall k :: k in HandledKeys(ps, e) ==> !IsDone(t, k)
    requires e.Handled? ==> e.handler.p.key == e.first.p.key
    ensures Keeps(t, AfterPass(t, ps, e, now, defaultSeconds))
  {
    var after := AfterPass(t, ps, e, now, defaultSeconds);
    if Counted(t) {
      PassCounted(t, ps, e, now, defaultSeconds);
    }
    forall k | IsDone(t, k)
      ensures IsDone(after, k) && after.tasks[k] == t.tasks[k]
      ensures IsStageDone(after, k.release, StageName(k.ref)) <==> IsStageDone(t, k.release, StageName(k.ref))
    {
      OthersStayInPass(t, ps, e, now, defaultSeconds, k);
    }
    forall r | Stuck(t, r) ensures Stuck(after, r) {
      assert IsDone(t, Key(r, Main));
    }
  }

  // ----- Half an update -----

  /** An update that stopped between its two transactions leaves every done task staged exactly if it wrote a cooldown
      or the stage was done before. */
  lemma {:induction false} HalfUpdateExactly(t: Tables, p: Processed, now: int, defaultSeconds: int)
    requires DoneStaged(t)
    ensures DoneStaged(AfterTaskUpdate(t, p, now, defaultSeconds)) <==>
      p.failure.Some? || IsStageDone(t, p.key.release, StageName(p.key.ref))
  {
    var half := AfterTaskUpdate(t, p, now, defaultSeconds);
    assert IsDone(half, p.key) <==> p.failure.None?;
    forall k | IsDone(half, k) && k != p.key ensures IsStageDone(half, k.release, StageName(k.ref)) {
      assert IsDone(t, k);
    }
  }

  /** A complete update leaves every done task staged, and so does one that writes a cooldown. */
  lemma UpdateStaged(t: Tables, p: Processed, now: int, defaultSeconds: int)
    requires forall k :: IsDone(t, k) && k != p.key ==> IsStageDone(t, k.release, StageName(k.ref))
    ensures DoneStaged(AfterUpdate(t, p, now, defaultSeconds))
    ensures p.failure.Some? ==> DoneStaged(AfterTaskUpdate(t, p, now, defaultSeconds))
  {
    var half, after := AfterTaskUpdate(t, p, now, defaultSeconds), AfterUpdate(t, p, now, defaultSeconds);
    forall k | IsDone(half, k) && k != p.key
      ensures IsStageDone(half, k.release, StageName(k.ref)) && IsStageDone(after, k.release, StageName(k.ref))
    {
      assert IsDone(t, k);
      StageRefs(k.ref, p.key.ref);
    }
  }

  lemma {:induction false} AllStaged(t: Tables, ps: seq<Processed>, now: int, defaultSeconds: int)
    requires DoneStaged(t)
    ensures DoneStaged(AfterAll(t, ps, now, defaultSeconds))
  {
    if ps != [] {
      AllStaged(t, ps[..|ps| - 1], now, defaultSeconds);
      UpdateStaged(AfterAll(t, ps[..|ps| - 1], now, defaultSeconds), ps[|ps| - 1], now, defaultSeconds);
    }
  }

  /** The pass ended with half of a done update, which nothing then wrote over. */
  predicate EndsHalfDone(e: Ending) {
    match e
    case Whole => false
    case Aborted(w) => w.fault == AfterTask && w.p.failure.None?
    case Handled(w, h) => w.fault == AfterTask && w.p.failure.None? && h.fault == BeforeCommit
  }

  lemma EndingStaged(t: Tables, e: Ending, now: int, defaultSeconds: int)
    requires DoneStaged(t)
    requires e.Handled? ==> e.handler.p.key == e.first.p.key && e.handler.p.failure.Some?
    ensures DoneStaged(AfterEnding(t, e, now, defaultSeconds)) <==>
      !EndsHalfDone(e) || IsStageDone(t, EndingKeys(e)[0].release, StageName(EndingKeys(e)[0].ref))
  {
    if !e.Whole? {
      var w := if e.Aborted? then e.last else e.first;
      HalfUpdateExactly(t, w.p, now, defaultSeconds);
      UpdateStaged(t, w.p, now, defaultSeconds);
      if e.Handled? {
        var half := AfterWrite(t, w, now, defaultSeconds);
        forall k | IsDone(half, k) && k != w.p.key ensures IsStageDone(half, k.release, StageName(k.ref)) {
          OthersStayInWrite(t, w, now, defaultSeconds, k);
          assert IsDone(t, k);
        }
        UpdateStaged(half, e.handler.p, now, defaultSeconds);
      }
    }
  }

  /** A pass leaves every done task staged exactly unless it ends with half of a done update and an open stage. */
  lemma {:induction false} PassStagedExactly(t: Tables, ps: seq<Processed>, e: Ending, now: int, defaultSeconds: int)
    requires DoneStaged(t) && DistinctKeys(HandledKeys(ps, e))
    requires e.Handled? ==> e.handler.p.key == e.first.p.key && e.handler.p.failure.Some?
    ensures DoneStaged(AfterPass(t, ps, e, now, defaultSeconds)) <==>
      !EndsHalfDone(e) || IsStageDone(t, EndingKeys(e)[0].release, StageName(EndingKeys(e)[0].ref))
  {
    AllStaged(t, ps, now, defaultSeconds);
    EndingStaged(AfterAll(t, ps, now, defaultSeconds), e, now, defaultSeconds);
    if !e.Whole? {
      var k := EndingKeys(e)[0];
      forall i | 0 <= i < |ps| ensures ProcessedKeys(ps)[i] != k {
        assert HandledKeys(ps, e)[i] != HandledKeys(ps, e)[|ps|];
      }
      OtherStagesStay(t, ps, now, defaultSeconds, k);
    }
  }

  /**
   * If half of a done update is all that is left of a main push, because the process ended there or the handler
   * could not write, the stage stays open: then, by Keeps, no later operation closes it, though the attempts still
   * count and done still stays.
   */
  lemma {:induction false} CrashLeavesStuck(t: Tables, p: Processed, now: int, defaultSeconds: int)
    requires p.key.ref == Main && p.failure.None?
    ensures var half := AfterTaskUpdate(t, p, now, defaultSeconds);
      && (Stuck(half, p.key.release) <==> !IsStageDone(t, p.key.release, MainPushed))
      && (Counted(t) ==> Counted(half))
  {
    if Counted(t) {
      WriteCounted(t, Write(p, AfterTask), now, defaultSeconds);
    }
    assert p.key == Key(p.key.release, Main);
  }
}
