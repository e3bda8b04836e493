/** Every state of the push queue's tables that is committed in a run, those inside an operation included. */
module PushHistory {
  import opened World
  import opened PushQueue
  import opened PushLedger

  /**
   * What an operation does to the tables. To ensure that a push is queued is to enqueue its task, not in a dry run,
   * and to mark its stage, each unless something raised before; to observe a tag is to mark its stage done; and a
   * pass handles due tasks.
   */
  datatype Step =
    | Ensure(key: Key, clock: int, enqueues: bool, marks: bool)
    | Observe(release: Release)
    | Pass(ps: seq<Processed>, ending: Ending, now: int, defaultSeconds: int)

  /** Nothing is ensured for a stage that is done, and a pass is one over the tasks that are due. */
  ghost predicate IsStep(t: Tables, s: Step) {
    match s
    case Ensure(key, _, enqueues, marks) => enqueues || marks ==> !IsStageDone(t, key.release, StageName(key.ref))
    case Observe(_) => true
    case Pass(ps, e, now, _) => exists rows, cap :: IsSelection(rows, t.tasks, now) && IsAnyPass(rows, ps, e, cap)
  }

  function AfterEnsureEnqueue(t: Tables, key: Key, clock: int, enqueues: bool): Tables {
    if enqueues then AfterEnqueue(t, key, clock) else t
  }

  function AfterStep(t: Tables, s: Step): Tables {
    match s
    case Ensure(key, clock, enqueues, marks) =>
      var queued := AfterEnsureEnqueue(t, key, clock, enqueues);
      if marks then AfterMark(queued, key.release, StageName(key.ref), StageQueued) else queued
    case Observe(release) => AfterMark(t, release, TagPushed, StageDone)
    case Pass(ps, e, now, defaultSeconds) => AfterPass(t, ps, e, now, defaultSeconds)
  }

  // ----- Committed states -----

  /** The states that an update commits: one for each of its transactions that it reaches. */
  function WriteCommits(t: Tables, w: Write, now: int, defaultSeconds: int): seq<Tables> {
    var half := AfterTaskUpdate(t, w.p, now, defaultSeconds);
    match w.fault
    case BeforeCommit => []
    case AfterTask => [half]
    case _ => [half, AfterUpdate(t, w.p, now, defaultSeconds)]
  }

  function AllCommits(t: Tables, ps: seq<Processed>, now: int, defaultSeconds: int): seq<Tables> {
    if ps == [] then []
    else
      var n := |ps| - 1;
      AllCommits(t, ps[..n], now, defaultSeconds)
      + WriteCommits(AfterAll(t, ps[..n], now, defaultSeconds), Write(ps[n], NoFault), now, defaultSeconds)
  }

  function EndingCommits(t: Tables, e: Ending, now: int, defaultSeconds: int): seq<Tables> {
    match e
    case Whole => []
    case Aborted(w) => WriteCommits(t, w, now, defaultSeconds)
    case Handled(w, h) =>
      WriteCommits(t, w, now, defaultSeconds)
      + WriteCommits(AfterWrite(t, w, now, defaultSeconds), h, now, defaultSeconds)
  }

  function PassCommits(t: Tables, ps: seq<Processed>, e: Ending, now: int, defaultSeconds: int): seq<Tables> {
    AllCommits(t, ps, now, defaultSeconds) + EndingCommits(AfterAll(t, ps, now, defaultSeconds), e, now, defaultSeconds)
  }

  function EnqueueCommits(t: Tables, key: Key, clock: int): seq<Tables> {
    if IsDone(t, key) then [] else [AfterEnqueue(t, key, clock)]
  }

  function StepCommits(t: Tables, s: Step): seq<Tables> {
    match s
    case Ensure(key, clock, enqueues, marks) =>
      (if enqueues then EnqueueCommits(t, key, clock) else []) + if marks then [AfterStep(t, s)] else []
    case Observe(release) => [AfterStep(t, s)]
    case Pass(ps, e, now, defaultSeconds) => PassCommits(t, ps, e, now, defaultSeconds)
  }

  function AfterRun(t: Tables, steps: seq<Step>): Tables {
    if steps == [] then t else AfterStep(AfterRun(t, steps[..|steps| - 1]), steps[|steps| - 1])
  }

  function RunCommits(t: Tables, steps: seq<Step>): seq<Tables> {
    if steps == [] then []
    else RunCommits(t, steps[..|steps| - 1]) + StepCommits(AfterRun(t, steps[..|steps| - 1]), steps[|steps| - 1])
  }

  ghost predicate IsRun(t: Tables, steps: seq<Step>) {
    steps != [] ==>
      IsRun(t, steps[..|steps| - 1]) && IsStep(AfterRun(t, steps[..|steps| - 1]), steps[|steps| - 1])
  }

  // ----- Putting records and steps together -----

  lemma AllSnoc(t: Tables, ps: seq<Processed>, p: Processed, now: int, defaultSeconds: int)
    ensures var all, w := AfterAll(t, ps, now, defaultSeconds), Write(p, NoFault);
      && AfterAll(t, ps + [p], now, defaultSeconds) == AfterWrite(all, w, now, defaultSeconds)
      && AllCommits(t, ps + [p], now, defaultSeconds)
         == AllCommits(t, ps, now, defaultSeconds) + WriteCommits(all, w, now, defaultSeconds)
  {
    assert (ps + [p])[..|ps|] == ps;
  }

  lemma Assoc(a: seq<Tables>, b: seq<Tables>, c: seq<Tables>)
    ensures a + (b + c) == a + b + c
  {
  }

  lemma {:induction false} AllAppend(t: Tables, ps: seq<Processed>, more: seq<Processed>, now: int, defaultSeconds: int)
    ensures AfterAll(t, ps + more, now, defaultSeconds)
         == AfterAll(AfterAll(t, ps, now, defaultSeconds), more, now, defaultSeconds)
    decreases |more|
  {
    if more == [] {
      assert ps + more == ps;
    } else {
      var n := |more| - 1;
      AllAppend(t, ps, more[..n], now, defaultSeconds);
      assert ps + more == ps + more[..n] + [more[n]];
      AllSnoc(t, ps + more[..n], more[n], now, defaultSeconds);
    }
  }

  lemma {:induction false} CommitsAppend(t: Tables, ps: seq<Processed>, more: seq<Processed>, now: int,
          defaultSeconds: int)
    ensures AllCommits(t, ps + more, now, defaultSeconds)
         == AllCommits(t, ps, now, defaultSeconds)
            + AllCommits(AfterAll(t, ps, now, defaultSeconds), more, now, defaultSeconds)
    decreases |more|
  {
    if more == [] {
      assert ps + more == ps;
    } else {
      var n := |more| - 1;
      var all := AfterAll(t, ps, now, defaultSeconds);
      var first, middle := AllCommits(t, ps, now, defaultSeconds), AllCommits(all, more[..n], now, defaultSeconds);
      var last :=
        WriteCommits(AfterAll(all, more[..n], now, defaultSeconds), Write(more[n], NoFault), now, defaultSeconds);
      calc {
        AllCommits(t, ps + more, now, defaultSeconds);
      == { assert ps + more == ps + more[..n] + [more[n]];
           AllAppend(t, ps, more[..n], now, defaultSeconds);
           AllSnoc(t, ps + more[..n], more[n], now, defaultSeconds); }
        AllCommits(t, ps + more[..n], now, defaultSeconds) + last;
      == { CommitsAppend(t, ps, more[..n], now, defaultSeconds); }
        first + middle + last;
      == { Assoc(first, middle, last); }
        first + (middle + last);
      ==
        first + AllCommits(all, more, now, defaultSeconds);
      }
    }
  }

  /** A pass may follow records that were made before it. */
  lemma PassAppend(t: Tables, ps: seq<Processed>, more: seq<Processed>, e: Ending, now: int, defaultSeconds: int)
    ensures var all := AfterAll(t, ps, now, defaultSeconds);
      && AfterPass(t, ps + more, e, now, defaultSeconds) == AfterPass(all, more, e, now, defaultSeconds)
      && PassCommits(t, ps + more, e, now, defaultSeconds)
         == AllCommits(t, ps, now, defaultSeconds) + PassCommits(all, more, e, now, defaultSeconds)
  {
    var all := AfterAll(t, ps, now, defaultSeconds);
    AllAppend(t, ps, more, now, defaultSeconds);
    CommitsAppend(t, ps, more, now, defaultSeconds);
    Assoc(AllCommits(t, ps, now, defaultSeconds), AllCommits(all, more, now, defaultSeconds),
          EndingCommits(AfterAll(all, more, now, defaultSeconds), e, now, defaultSeconds));
  }

  /** The same with what was committed before the records. */
  lemma PassAppendAfter(h: seq<Tables>, t: Tables, ps: seq<Processed>, more: seq<Processed>, e: Ending, now: int,
          defaultSeconds: int)
    ensures var all := AfterAll(t, ps, now, defaultSeconds);
      && AfterPass(t, ps + more, e, now, defaultSeconds) == AfterPass(all, more, e, now, defaultSeconds)
      && h + PassCommits(t, ps + more, e, now, defaultSeconds)
         == h + AllCommits(t, ps, now, defaultSeconds) + PassCommits(all, more, e, now, defaultSeconds)
  {
    PassAppend(t, ps, more, e, now, defaultSeconds);
    Assoc(h, AllCommits(t, ps, now, defaultSeconds),
          PassCommits(AfterAll(t, ps, now, defaultSeconds), more, e, now, defaultSeconds));
  }

  lemma WholePass(t: Tables, ps: seq<Processed>, now: int, defaultSeconds: int)
    ensures PassCommits(t, ps, Whole, now, defaultSeconds) == AllCommits(t, ps, now, defaultSeconds)
  {
  }

  lemma RunSnoc(t: Tables, steps: seq<Step>, s: Step)
    ensures IsRun(t, steps) && IsStep(AfterRun(t, steps), s) ==> IsRun(t, steps + [s])
    ensures AfterRun(t, steps + [s]) == AfterStep(AfterRun(t, steps), s)
    ensures RunCommits(t, steps + [s]) == RunCommits(t, steps) + StepCommits(AfterRun(t, steps), s)
  {
    assert (steps + [s])[..|steps|] == steps;
  }

  // ----- Done is final -----

  /** No committed state changes a task that was done in the state before it. */
  ghost predicate DoneKept(h: seq<Tables>) {
    forall i :: 0 < i < |h| ==> DoneStays(h[i - 1], h[i])
  }

  /** Then a done task is never changed again. */
  lemma {:induction false} DoneKeptForGood(h: seq<Tables>, i: nat, j: nat)
    requires DoneKept(h) && i <= j < |h|
    ensures DoneStays(h[i], h[j])
    decreases j
  {
    if i < j {
      DoneKeptForGood(h, i, j - 1);
      assert DoneStays(h[j - 1], h[j]);
      forall k | IsDone(h[i], k) ensures IsDone(h[j], k) && h[j].tasks[k] == h[i].tasks[k] {
        assert IsDone(h[j - 1], k);
      }
    }
  }

  /** The handler wrote a cooldown over an update that had committed that the task is done. */
  predicate LosesDone(e: Ending) {
    e.Handled? && e.first.p.failure.None? && e.first.fault != BeforeCommit && e.handler.fault != BeforeCommit
  }

  /** The commits start at one state of the tables and end at the other. */
  ghost predicate Leads(t: Tables, c: seq<Tables>, u: Tables) {
    ([t] + c)[|c|] == u
  }

  ghost predicate KeptFrom(t: Tables, c: seq<Tables>) {
    DoneKept([t] + c)
  }

  lemma Concat(t: Tables, c: seq<Tables>, u: Tables, d: seq<Tables>, v: Tables)
    requires Leads(t, c, u) && Leads(u, d, v)
    ensures Leads(t, c + d, v)
    ensures KeptFrom(t, c + d) <==> KeptFrom(t, c) && KeptFrom(u, d)
  {
    var h, tail, all := [t] + c, [u] + d, [t] + (c + d);
    assert forall i :: 0 <= i < |tail| ==> tail[i] == all[|c| + i];
    assert forall i :: 0 <= i < |h| ==> h[i] == all[i];
    if DoneKept(h) && DoneKept(tail) {
      forall i | 0 < i < |all| ensures DoneStays(all[i - 1], all[i]) {
        if i < |h| {
          assert DoneStays(h[i - 1], h[i]);
        } else {
          assert DoneStays(tail[i - |h|], tail[i - |h| + 1]);
        }
      }
    }
    if DoneKept(all) {
      forall i | 0 < i < |tail| ensures DoneStays(tail[i - 1], tail[i]) {
        assert DoneStays(all[|c| + i - 1], all[|c| + i]);
      }
      forall i | 0 < i < |h| ensures DoneStays(h[i - 1], h[i]) {
        assert DoneStays(all[i - 1], all[i]);
      }
    }
  }

  /** An update never takes back a done task that it does not name, and one that it names exactly if it writes. */
  lemma {:induction false} WriteKeptExactly(t: Tables, w: Write, now: int, defaultSeconds: int)
    requires IsDone(t, w.p.key) ==> w.p.failure.Some?
    ensures KeptFrom(t, WriteCommits(t, w, now, defaultSeconds)) <==> !IsDone(t, w.p.key) || w.fault == BeforeCommit
    ensures Leads(t, WriteCommits(t, w, now, defaultSeconds), AfterWrite(t, w, now, defaultSeconds))
  {
    var h := [t] + WriteCommits(t, w, now, defaultSeconds);
    var half := AfterTaskUpdate(t, w.p, now, defaultSeconds);
    if w.fault != BeforeCommit {
      assert h[1] == half;
      assert DoneKept(h) ==> DoneStays(h[0], h[1]);
      assert IsDone(t, w.p.key) ==> !IsDone(half, w.p.key);
    }
  }

  lemma {:induction false} AllKept(t: Tables, ps: seq<Processed>, now: int, defaultSeconds: int)
    requires Distinct(ps) && forall i :: 0 <= i < |ps| ==> !IsDone(t, ps[i].key)
    ensures KeptFrom(t, AllCommits(t, ps, now, defaultSeconds))
    ensures Leads(t, AllCommits(t, ps, now, defaultSeconds), AfterAll(t, ps, now, defaultSeconds))
  {
    if ps != [] {
      var n := |ps| - 1;
      var before, w := AfterAll(t, ps[..n], now, defaultSeconds), Write(ps[n], NoFault);
      AllKept(t, ps[..n], now, defaultSeconds);
      forall j | 0 <= j < n ensures ProcessedKeys(ps[..n])[j] != ps[n].key {
        assert ps[j].key != ps[n].key;
      }
      OtherTasksStay(t, ps[..n], now, defaultSeconds, ps[n].key);
      WriteKeptExactly(before, w, now, defaultSeconds);
      Concat(t, AllCommits(t, ps[..n], now, defaultSeconds), before, WriteCommits(before, w, now, defaultSeconds),
             AfterWrite(before, w, now, defaultSeconds));
    }
  }

  lemma {:induction false} EndingKeptExactly(t: Tables, e: Ending, now: int, defaultSeconds: int)
    requires forall k :: k in EndingKeys(e) ==> !IsDone(t, k)
    requires e.Handled? ==> e.handler.p.key == e.first.p.key && e.handler.p.failure.Some?
    ensures KeptFrom(t, EndingCommits(t, e, now, defaultSeconds)) <==> !LosesDone(e)
    ensures Leads(t, EndingCommits(t, e, now, defaultSeconds), AfterEnding(t, e, now, defaultSeconds))
  {
    match e
    case Whole =>
    case Aborted(w) =>
      assert w.p.key in EndingKeys(e);
      WriteKeptExactly(t, w, now, defaultSeconds);
    case Handled(w, h) =>
      var half := AfterWrite(t, w, now, defaultSeconds);
      assert w.p.key in EndingKeys(e);
      WriteKeptExactly(t, w, now, defaultSeconds);
      WriteKeptExactly(half, h, now, defaultSeconds);
      Concat(t, WriteCommits(t, w, now, defaultSeconds), half, WriteCommits(half, h, now, defaultSeconds),
             AfterWrite(half, h, now, defaultSeconds));
  }

  lemma EndingStillOpen(t: Tables, ps: seq<Processed>, e: Ending, now: int, defaultSeconds: int, k: Key)
    requires DistinctKeys(HandledKeys(ps, e)) && k in EndingKeys(e) && !IsDone(t, k)
    ensures !IsDone(AfterAll(t, ps, now, defaultSeconds), k)
  {
    var keys := HandledKeys(ps, e);
    assert keys[|ps|] == k;
    forall i | 0 <= i < |ps| ensures ProcessedKeys(ps)[i] != k {
      assert keys[i] != keys[|ps|];
    }
    OtherTasksStay(t, ps, now, defaultSeconds, k);
  }

  lemma {:induction false} PassKeptExactly(t: Tables, ps: seq<Processed>, e: Ending, now: int, defaultSeconds: int)
    requires DistinctKeys(HandledKeys(ps, e)) && forall k :: k in HandledKeys(ps, e) ==> !IsDone(t, k)
    requires e.Handled? ==> e.handler.p.key == e.first.p.key && e.handler.p.failure.Some?
    ensures KeptFrom(t, PassCommits(t, ps, e, now, defaultSeconds)) <==> !LosesDone(e)
    ensures Leads(t, PassCommits(t, ps, e, now, defaultSeconds), AfterPass(t, ps, e, now, defaultSeconds))
  {
    var all := AfterAll(t, ps, now, defaultSeconds);
    DistinctRecords(ps, EndingKeys(e));
    forall i | 0 <= i < |ps| ensures !IsDone(t, ps[i].key) {
      assert ps[i].key == HandledKeys(ps, e)[i] && ps[i].key in HandledKeys(ps, e);
    }
    AllKept(t, ps, now, defaultSeconds);
    forall k | k in EndingKeys(e) ensures !IsDone(all, k) {
      assert k in HandledKeys(ps, e);
      EndingStillOpen(t, ps, e, now, defaultSeconds, k);
    }
    EndingKeptExactly(all, e, now, defaultSeconds);
    Concat(t, AllCommits(t, ps, now, defaultSeconds), all, EndingCommits(all, e, now, defaultSeconds),
           AfterEnding(all, e, now, defaultSeconds));
  }

  /** What a step's pass handles was not done, each task once, and a handler writes a cooldown for the same task. */
  lemma PassIsOfOpenTasks(t: Tables, ps: seq<Processed>, e: Ending, now: int, defaultSeconds: int)
    requires IsStep(t, Pass(ps, e, now, defaultSeconds))
    ensures DistinctKeys(HandledKeys(ps, e)) && forall k :: k in HandledKeys(ps, e) ==> !IsDone(t, k)
    ensures e.Handled? ==> e.handler.p.key == e.first.p.key && e.handler.p.failure.Some?
  {
    var rows, cap :| IsSelection(rows, t.tasks, now) && IsAnyPass(rows, ps, e, cap);
    AnyPassHandles(rows, ps, e, cap);
    forall k | k in HandledKeys(ps, e) ensures !IsDone(t, k) {
      var i :| 0 <= i < |HandledKeys(ps, e)| && HandledKeys(ps, e)[i] == k;
      HandledWasDue(rows, ps, e, cap, t.tasks, now, i);
    }
    if e.Handled? {
      HandlerCools(rows, ps, e, cap);
    }
  }

  predicate StepLosesDone(s: Step) {
    s.Pass? && LosesDone(s.ending)
  }

  lemma EnsureKeeps(t: Tables, key: Key, clock: int, enqueues: bool, marks: bool)
    requires IsStep(t, Ensure(key, clock, enqueues, marks))
    ensures var s := Ensure(key, clock, enqueues, marks);
      && Keeps(t, AfterStep(t, s)) && (DoneStaged(t) ==> DoneStaged(AfterStep(t, s)))
      && KeptFrom(t, StepCommits(t, s)) && Leads(t, StepCommits(t, s), AfterStep(t, s))
  {
    var queued := AfterEnsureEnqueue(t, key, clock, enqueues);
    EnqueueKeeps(t, key, clock);
    KeepsRefl(t);
    if marks {
      MarkKeeps(queued, key.release, key.ref, StageQueued);
      KeepsTransitive(t, queued, AfterMark(queued, key.release, StageName(key.ref), StageQueued));
    }
    var c := if enqueues then EnqueueCommits(t, key, clock) else [];
    var d := if marks then [AfterMark(queued, key.release, StageName(key.ref), StageQueued)] else [];
    Concat(t, c, queued, d, AfterStep(t, Ensure(key, clock, enqueues, marks)));
  }

  /** A step changes a done task in exactly one case. */
  lemma {:induction false} StepKeptExactly(t: Tables, s: Step)
    requires IsStep(t, s)
    ensures KeptFrom(t, StepCommits(t, s)) <==> !StepLosesDone(s)
    ensures Leads(t, StepCommits(t, s), AfterStep(t, s))
  {
    match s
    case Ensure(key, clock, enqueues, marks) =>
      EnsureKeeps(t, key, clock, enqueues, marks);
    case Observe(release) =>
      MarkKeeps(t, release, ReleaseTag, StageDone);
    case Pass(ps, e, now, defaultSeconds) =>
      PassIsOfOpenTasks(t, ps, e, now, defaultSeconds);
      PassKeptExactly(t, ps, e, now, defaultSeconds);
  }

  predicate NoneLost(steps: seq<Step>) {
    forall i :: 0 <= i < |steps| ==> !StepLosesDone(steps[i])
  }

  lemma NoneLostSnoc(steps: seq<Step>)
    requires steps != []
    ensures NoneLost(steps) <==> NoneLost(steps[..|steps| - 1]) && !StepLosesDone(steps[|steps| - 1])
  {
    assert forall i :: 0 <= i < |steps| - 1 ==> steps[..|steps| - 1][i] == steps[i];
  }

  /**
   * Over any run, a done task is never changed again exactly if no pass ended with a main whose done update raised
   * after its first transaction and whose handler then committed its cooldown.
   */
  lemma {:induction false} DoneFinalExactly(t: Tables, steps: seq<Step>)
    requires IsRun(t, steps)
    ensures KeptFrom(t, RunCommits(t, steps)) <==> NoneLost(steps)
    ensures Leads(t, RunCommits(t, steps), AfterRun(t, steps))
  {
    if steps != [] {
      var n := |steps| - 1;
      var before := AfterRun(t, steps[..n]);
      DoneFinalExactly(t, steps[..n]);
      StepKeptExactly(before, steps[n]);
      NoneLostSnoc(steps);
      Concat(t, RunCommits(t, steps[..n]), before, StepCommits(before, steps[n]), AfterStep(before, steps[n]));
    }
  }

  /**
   * The case exists: with a main alone due, there is a run of one pass that commits it done and then makes it cool
   * down again.
   */
  lemma {:induction false} DoneLost(t: Tables, release: Release, now: int, defaultSeconds: int, reason: Reason)
    requires DueKeys(t.tasks, now) == {Key(release, Main)}
    ensures exists s :: IsStep(t, s) && LosesTask(StepCommits(t, s), Key(release, Main))
  {
    var key := Key(release, Main);
    assert key in DueKeys(t.tasks, now);
    var row := RowOf(key, t.tasks[key]);
    var p, q := Processed(key, None, row.attempts, now), Processed(key, Some(reason), row.attempts, now);
    var e := Handled(Write(p, AfterStage), Write(q, NoFault));
    assert RowKeys([row])[0] == key;
    assert IsSelection([row], t.tasks, now);
    assert IsAnyPass([row], [], e, None);
    assert IsStep(t, Pass([], e, now, defaultSeconds));
    assert LosesTask(StepCommits(t, Pass([], e, now, defaultSeconds)), key);
  }

  predicate LosesTask(h: seq<Tables>, key: Key) {
    |h| >= 2 && IsDone(h[0], key) && !IsDone(h[|h| - 1], key)
  }

  // ----- What holds at the end of any run -----

  /** The attempts are the logged cooldowns and a stuck main push stays stuck, whatever raises in a run. */
  lemma {:induction false} RunCounted(t: Tables, steps: seq<Step>)
    requires IsRun(t, steps)
    ensures Counted(t) ==> Counted(AfterRun(t, steps))
    ensures forall r :: Stuck(t, r) ==> Stuck(AfterRun(t, steps), r)
  {
    if steps != [] {
      RunCounted(t, steps[..|steps| - 1]);
      StepKeeps(AfterRun(t, steps[..|steps| - 1]), steps[|steps| - 1]);
    }
  }

  lemma StepKeeps(t: Tables, s: Step)
    requires IsStep(t, s)
    ensures Keeps(t, AfterStep(t, s))
  {
    match s
    case Ensure(key, clock, enqueues, marks) =>
      EnsureKeeps(t, key, clock, enqueues, marks);
    case Observe(release) =>
      MarkKeeps(t, release, ReleaseTag, StageDone);
    case Pass(ps, e, now, defaultSeconds) =>
      PassIsOfOpenTasks(t, ps, e, now, defaultSeconds);
      PassKeeps(t, ps, e, now, defaultSeconds);
  }

  predicate NoneHalfDone(steps: seq<Step>) {
    forall i :: 0 <= i < |steps| && steps[i].Pass? ==> !EndsHalfDone(steps[i].ending)
  }

  /** Every done task has its stage done at the end of a run in which no pass ended with half of a done update. */
  lemma {:induction false} RunStaged(t: Tables, steps: seq<Step>)
    requires IsRun(t, steps) && DoneStaged(t)
    requires NoneHalfDone(steps)
    ensures DoneStaged(AfterRun(t, steps))
  {
    if steps != [] {
      var n := |steps| - 1;
      var before := AfterRun(t, steps[..n]);
      RunStaged(t, steps[..n]);
      match steps[n]
      case Ensure(key, clock, enqueues, marks) =>
        EnsureKeeps(before, key, clock, enqueues, marks);
      case Observe(release) =>
        MarkKeeps(before, release, ReleaseTag, StageDone);
      case Pass(ps, e, now, defaultSeconds) =>
        PassIsOfOpenTasks(before, ps, e, now, defaultSeconds);
        PassStagedExactly(before, ps, e, now, defaultSeconds);
    }
  }
}
