/** The push queue's store: its three tables, updated in place by enqueueing, stage marking and queue passes. */
module PushStore {
  import opened World
  import opened PushQueue
  import opened PushLedger
  import opened PushHistory
  import opened PushOutcome

  class Store {
    var tasks: map<Key, Task>
    var stages: map<(Release, Stage), StageStatus>
    var events: seq<Event>

    /** Every state that was committed. */
    ghost var history: seq<Tables>

    function View(): Tables
      reads this
    {
      Tables(tasks, stages, events)
    }

    constructor ()
      ensures tasks == map[] && stages == map[] && events == []
      ensures Counted(View()) && DoneStaged(View()) && history == [View()]
    {
      tasks, stages, events := map[], map[], [];
      history := [Tables(map[], map[], [])];
    }

    // ----- Single operations -----

    method MarkStage(release: Release, stage: Stage, status: StageStatus)
      modifies this
      ensures View() == AfterMark(old(View()), release, stage, status)
      ensures history == old(history) + [View()]
    {
      stages := stages[(release, stage) := status];
      events := events + [StageMarked(release, stage, status)];
      history := history + [View()];
    }

    predicate StageIsDone(release: Release, stage: Stage)
      reads this
    {
      IsStageDone(View(), release, stage)
    }

    method EnqueueGitPushTask(key: Key, dryRun: bool, clock: int)
      modifies this
      ensures View() == if dryRun then old(View()) else AfterEnqueue(old(View()), key, clock)
      ensures history == old(history) + if dryRun then [] else EnqueueCommits(old(View()), key, clock)
    {
      if dryRun {
        return;
      }
      if key in tasks && tasks[key].status == Done {
        return;
      }
      if key !in tasks {
        tasks := tasks[key := Task(Queued, 0, None, clock, clock, clock)];
      } else {
        tasks := tasks[key := tasks[key].(status := Queued, updated := clock)];
      }
      events := events + [TaskQueued(key)];
      history := history + [View()];
    }

    /**
     * `nextAttempt` absent means the clock. The task and its stage are written in separate transactions, and the fault
     * says where the update raises.
     */
    method UpdateGitPushTask(key: Key, status: TaskStatus, lastError: Option<Reason>, attemptsDelta: int,
            nextAttempt: Option<int>, clock: int, fault: Fault)
      requires status != Queued
      modifies this
      ensures var row := if key in old(tasks) then old(tasks)[key] else NewTask(clock);
        var attempts := if key in old(tasks) then row.attempts + attemptsDelta else Max(0, attemptsDelta);
        var next := if nextAttempt.None? then clock else OrNow(nextAttempt.value, clock);
        var task := Task(status, attempts, lastError, next, row.created, clock);
        var half := old(View()).(tasks := old(tasks)[key := task],
                                 events := old(events) + [TaskUpdated(key, status)]);
        var marked := AfterMark(half, key.release, StageName(key.ref), StageAfter(status));
        match fault
        case BeforeCommit => View() == old(View()) && history == old(history)
        case AfterTask => View() == half && history == old(history) + [half]
        case _ => View() == marked && history == old(history) + [half, marked]
    {
      if fault == BeforeCommit {
        return;
      }
      var next := if nextAttempt.None? then clock else OrNow(nextAttempt.value, clock);
      if key !in tasks {
        tasks := tasks[key := Task(status, Max(0, attemptsDelta), lastError, next, clock, clock)];
      } else {
        var row := tasks[key];
        tasks := tasks[key := Task(status, row.attempts + attemptsDelta, lastError, next, row.created, clock)];
      }
      events := events + [TaskUpdated(key, status)];
      history := history + [View()];
      if fault == AfterTask {
        return;
      }
      MarkStage(key.release, StageName(key.ref), if status == Done then StageDone else StageQueued);
    }

    /** `ensure_main_pushed`. A dry run enqueues nothing, but marks the stage all the same. */
    method EnsureMainPushed(release: Release, dryRun: bool, clock: int) returns (raised: bool, ghost step: Step)
      modifies this
      ensures IsStep(old(View()), step) && View() == AfterStep(old(View()), step)
      ensures history == old(history) + StepCommits(old(View()), step)
      ensures old(StageIsDone(release, MainPushed)) ==> View() == old(View())
      ensures !raised && !old(StageIsDone(release, MainPushed)) ==>
        && (!dryRun ==> Key(release, Main) in tasks)
        && (release, MainPushed) in stages && stages[(release, MainPushed)] == StageQueued
    {
      raised, step := EnsureQueued(Key(release, Main), dryRun, clock);
    }

    /** The same for the release's tag, in `create_tag_and_release`. */
    method EnsureTagQueued(release: Release, dryRun: bool, clock: int) returns (raised: bool, ghost step: Step)
      modifies this
      ensures IsStep(old(View()), step) && View() == AfterStep(old(View()), step)
      ensures history == old(history) + StepCommits(old(View()), step)
      ensures old(StageIsDone(release, TagPushed)) ==> View() == old(View())
      ensures !raised && !old(StageIsDone(release, TagPushed)) ==>
        && (!dryRun ==> Key(release, ReleaseTag) in tasks)
        && (release, TagPushed) in stages && stages[(release, TagPushed)] == StageQueued
    {
      raised, step := EnsureQueued(Key(release, ReleaseTag), dryRun, clock);
    }

    /** Either transaction may raise before it commits; the first also after it. */
    method EnsureQueued(key: Key, dryRun: bool, clock: int) returns (raised: bool, ghost step: Step)
      modifies this
      ensures IsStep(old(View()), step) && View() == AfterStep(old(View()), step)
      ensures history == old(history) + StepCommits(old(View()), step)
      ensures old(StageIsDone(key.release, StageName(key.ref))) ==> View() == old(View())
      ensures !raised && !old(StageIsDone(key.release, StageName(key.ref))) ==>
        View() == AfterMark(if dryRun then old(View()) else AfterEnqueue(old(View()), key, clock),
                            key.release, StageName(key.ref), StageQueued)
    {
      raised, step := false, Ensure(key, clock, false, false);
      if StageIsDone(key.release, StageName(key.ref)) {
        return;
      }
      if !dryRun {
        raised := Answer<bool>();
        if raised {
          return;
        }
        EnqueueGitPushTask(key, dryRun, clock);
        step := Ensure(key, clock, true, false);
      }
      raised := Answer<bool>();
      if raised {
        return;
      }
      MarkStage(key.release, StageName(key.ref), StageQueued);
      step := Ensure(key, clock, !dryRun, true);
    }

    /** `preflight_public_release_surfaces`, when it sees the release's tag on the remote. */
    method ObserveTagPushed(release: Release) returns (ghost step: Step)
      modifies this
      ensures IsStep(old(View()), step) && View() == AfterStep(old(View()), step)
      ensures history == old(history) + StepCommits(old(View()), step)
      ensures tasks == old(tasks) && StageIsDone(release, TagPushed)
    {
      step := Observe(release);
      MarkStage(release, TagPushed, StageDone);
    }

    // ----- One pass -----

    /** The SELECT of the due tasks. */
    method SelectDue(now: int) returns (rows: seq<Row>)
      ensures IsSelection(rows, tasks, now)
    {
      rows := [];
      var rest := DueKeys(tasks, now);
      while rest != {}
        invariant rest <= DueKeys(tasks, now)
        invariant forall r :: r in rows ==>
          r.key in DueKeys(tasks, now) && r.key !in rest && r == RowOf(r.key, tasks[r.key])
        invariant forall k :: k in DueKeys(tasks, now) ==> k in rest || k in RowKeys(rows)
        invariant DistinctRows(rows) && Sorted(rows)
        decreases |rest|
      {
        var k :| k in rest;
        NotAmongRows(rows, k);
        InsertProperties(RowOf(k, tasks[k]), rows);
        rows := InsertRow(RowOf(k, tasks[k]), rows);
        rest := rest - {k};
      }
      assert forall i :: 0 <= i < |rows| ==> rows[i] in rows;
    }

    /**
     * Records what became of one selected row: `update_git_push_task`, with the cooldown its failure calls for. The
     * world decides whether it raises.
     */
    method Record(row: Row, failure: Option<Reason>, now: int, cooldownSeconds: int) returns (w: Write)
      modifies this
      ensures IsRecordOf(w.p, row) && w.p.failure == failure
      ensures View() == AfterWrite(old(View()), w, now, cooldownSeconds)
      ensures history == old(history) + WriteCommits(old(View()), w, now, cooldownSeconds)
    {
      var clock := Answer<int>();
      var fault := Answer<Fault>();
      w := Write(Processed(row.key, failure, row.attempts, clock), fault);
      if failure.None? {
        UpdateGitPushTask(row.key, Done, None, 0, None, clock, fault);
      } else {
        var cooldown := CooldownSeconds(failure.value, row.attempts + 1, cooldownSeconds);
        UpdateGitPushTask(row.key, Cooldown, failure, 1, Some(now + cooldown), clock, fault);
      }
    }

    /** What became of a main before it is recorded, and whether that raised. */
    method AttemptMain(status: RemoteStatus, push: Option<Reason>) returns (failure: Option<Reason>, raised: bool)
      ensures failure == MainFailure(status, push) && raised == AttemptRaised(status, push)
    {
      failure, raised := None, false;
      match status
      case Converged =>
      case ProbeRaised(exception) =>
        failure, raised := Some(exception), true;
      case NotConverged(reason) =>
        if reason.Some? {
          failure := reason;
        } else {
          failure, raised := push, push.Some?;
        }
    }

    /**
     * Records a main's outcome. Whatever raises, the attempt or this update, is turned into a cooldown by the exception
     * handler, whose own update may raise.
     */
    method RecordMain(row: Row, failure: Option<Reason>, raised: bool, now: int, cooldownSeconds: int)
      returns (ps: seq<Processed>, e: Ending)
      requires raised ==> failure.Some?
      modifies this
      ensures if e.Whole? then |ps| == 1 && IsRecordOf(ps[0], row) else ps == [] && IsMainEnding(row, e)
      ensures e.Whole? ==> ps[0].failure == failure
      ensures !e.Whole? ==> e.Aborted? == raised && (if raised then e.last else e.first).p.failure == failure
      ensures View() == AfterPass(old(View()), ps, e, now, cooldownSeconds)
      ensures history == old(history) + PassCommits(old(View()), ps, e, now, cooldownSeconds)
    {
      ghost var before := View();
      var w := Record(row, failure, now, cooldownSeconds);
      if w.fault == NoFault {
        OneRecord(before, w, now, cooldownSeconds);
        return [w.p], Whole;
      }
      if raised {
        return [], Aborted(w);
      }
      var exception := Answer<Reason>();
      var h := Record(row, Some(exception), now, cooldownSeconds);
      return [], Handled(w, h);
    }

    /** The main branch of the loop: observe, cool down if the probe failed, else push. */
    method ProcessMainRow(row: Row, answers: Answers, now: int, cooldownSeconds: int)
      returns (ps: seq<Processed>, e: Ending)
      requires row.key.ref == Main
      modifies this
      ensures if e.Whole? then |ps| == 1 && IsRecordOf(ps[0], row) else ps == [] && IsMainEnding(row, e)
      ensures AreOutcomes(answers, ps) && IsEndingOutcome(answers, e)
      ensures !e.Whole? ==> e.Aborted? == AttemptRaised(answers.first(row.key), answers.mainPush(row.key))
      ensures View() == AfterPass(old(View()), ps, e, now, cooldownSeconds)
      ensures history == old(history) + PassCommits(old(View()), ps, e, now, cooldownSeconds)
    {
      var failure, raised := AttemptMain(answers.first(row.key), answers.mainPush(row.key));
      ps, e := RecordMain(row, failure, raised, now, cooldownSeconds);
    }

    /** The tables and the history after some records, and after a whole pass. */
    ghost predicate HoldsRecords(t: Tables, h: seq<Tables>, ps: seq<Processed>, now: int, cooldownSeconds: int)
      reads this
    {
      && View() == AfterAll(t, ps, now, cooldownSeconds)
      && history == h + AllCommits(t, ps, now, cooldownSeconds)
    }

    ghost predicate HoldsPass(t: Tables, h: seq<Tables>, ps: seq<Processed>, e: Ending, now: int, cooldownSeconds: int)
      reads this
    {
      && View() == AfterPass(t, ps, e, now, cooldownSeconds)
      && history == h + PassCommits(t, ps, e, now, cooldownSeconds)
    }

    /** Records one more row of a tag batch. Nothing handles an update that raises there. */
    method RecordNext(ghost t: Tables, ghost h: seq<Tables>, ps: seq<Processed>, row: Row, failure: Option<Reason>,
            now: int, cooldownSeconds: int)
      returns (w: Write)
      requires HoldsRecords(t, h, ps, now, cooldownSeconds)
      modifies this
      ensures IsRecordOf(w.p, row) && w.p.failure == failure
      ensures if w.fault == NoFault then HoldsRecords(t, h, ps + [w.p], now, cooldownSeconds)
              else HoldsPass(t, h, ps, Aborted(w), now, cooldownSeconds)
    {
      ghost var before := View();
      w := Record(row, failure, now, cooldownSeconds);
      Assoc(h, AllCommits(t, ps, now, cooldownSeconds), WriteCommits(before, w, now, cooldownSeconds));
      if w.fault == NoFault {
        AllSnoc(t, ps, w.p, now, cooldownSeconds);
      }
    }

    /** The first loop of a tag batch: what is there already is done, a failed probe cools down, the rest is pending. */
    method ObserveTagRows(rows: seq<Row>, answers: Answers, now: int, cooldownSeconds: int)
      returns (ps: seq<Processed>, pending: seq<Row>, e: Ending)
      requires OnlyTags(rows)
      modifies this
      ensures AreOutcomes(answers, ps) && IsEndingOutcome(answers, e)
      ensures FromRows(rows, ps) && ArePending(answers, pending, rows)
      ensures if e.Whole? then Accounted(ps, pending, rows) else IsBatchCut(rows, ps, e)
      ensures if e.Whole? then HoldsRecords(old(View()), old(history), ps, now, cooldownSeconds)
              else HoldsPass(old(View()), old(history), ps, e, now, cooldownSeconds)
    {
      ps, pending, e := [], [], Whole;
      for i := 0 to |rows|
        invariant FromRows(rows, ps) && ArePending(answers, pending, rows)
        invariant e.Whole? && Accounted(ps, pending, rows[..i]) && AreOutcomes(answers, ps)
        invariant HoldsRecords(old(View()), old(history), ps, now, cooldownSeconds)
      {
        var status := answers.first(rows[i].key);
        if status.ProbeRaised? {
          FirstLoopTurn(ps, pending, rows, i, NothingWritten(rows[i]));
          NothingCommitted(old(View()), ps, NothingWritten(rows[i]), now, cooldownSeconds);
          return ps, pending, Aborted(NothingWritten(rows[i]));
        }
        if status == NotConverged(None) {
          PendingGrows(ps, pending, rows, i);
          PendingTurn(answers, pending, rows, i);
          pending := pending + [rows[i]];
        } else {
          var failure := if status.Converged? then None else status.probeFailure;
          var w := RecordNext(old(View()), old(history), ps, rows[i], failure, now, cooldownSeconds);
          FirstLoopTurn(ps, pending, rows, i, w);
          if w.fault != NoFault {
            return ps, pending, Aborted(w);
          }
          OutcomesSnoc(answers, ps, w.p);
          ps := ps + [w.p];
        }
      }
      assert rows[..|rows|] == rows;
    }

    /** After the push a tag is done if it is seen on the remote; else its failure is the probe's, or the push's. */
    method ObserveAgain(row: Row, answers: Answers) returns (failure: Option<Reason>, status: RemoteStatus)
      requires row.key.ref == ReleaseTag && IsPending(answers, row.key)
      ensures status == LastProbe(answers, row.key)
      ensures !status.ProbeRaised? ==> IsFailureOf(answers, row.key, failure)
    {
      failure := None;
      status := answers.again(row.key);
      if status.NotConverged? {
        failure :=
          if status.probeFailure.Some? then status.probeFailure
          else if answers.tagPush.Some? then answers.tagPush
          else Some(OtherReason("git_push_not_observed_after_batch"));
      }
    }

    /** The second loop: the pending tags are observed again. */
    method ObservePending(ghost before: Tables, ghost start: seq<Tables>, rows: seq<Row>, done: seq<Processed>,
            pending: seq<Row>, answers: Answers, now: int, cooldownSeconds: int)
      returns (ps: seq<Processed>, e: Ending)
      requires FromRows(rows, done) && ArePending(answers, pending, rows) && Accounted(done, pending, rows)
      requires AreOutcomes(answers, done) && HoldsRecords(before, start, done, now, cooldownSeconds)
      modifies this
      ensures AreOutcomes(answers, ps) && IsEndingOutcome(answers, e)
      ensures FromRows(rows, ps)
      ensures if e.Whole? then Accounted(ps, [], rows) else IsBatchCut(rows, ps, e)
      ensures HoldsPass(before, start, ps, e, now, cooldownSeconds)
    {
      ps, e := done, Whole;
      for i := 0 to |pending|
        invariant e.Whole? && FromRows(rows, ps) && AreOutcomes(answers, ps) && Accounted(ps, pending[i..], rows)
        invariant HoldsRecords(before, start, ps, now, cooldownSeconds)
      {
        var failure, status := ObserveAgain(pending[i], answers);
        if status.ProbeRaised? {
          SecondLoopTurn(ps, pending, rows, i, NothingWritten(pending[i]));
          NothingCommitted(before, ps, NothingWritten(pending[i]), now, cooldownSeconds);
          return ps, Aborted(NothingWritten(pending[i]));
        }
        var w := RecordNext(before, start, ps, pending[i], failure, now, cooldownSeconds);
        SecondLoopTurn(ps, pending, rows, i, w);
        if w.fault != NoFault {
          return ps, Aborted(w);
        }
        OutcomesSnoc(answers, ps, w.p);
        ps := ps + [w.p];
      }
      assert pending[|pending|..] == [];
      WholePass(before, ps, now, cooldownSeconds);
    }

    /** `process_git_push_tag_batch`: observe each, push the rest in one go, observe those again. */
    method ProcessTagBatch(rows: seq<Row>, answers: Answers, now: int, cooldownSeconds: int)
      returns (ps: seq<Processed>, e: Ending)
      requires DistinctRows(rows) && OnlyTags(rows)
      modifies this
      ensures FromRows(rows, ps)
      ensures AreOutcomes(answers, ps) && IsEndingOutcome(answers, e)
      ensures if e.Whole? then multiset(ProcessedKeys(ps)) == multiset(RowKeys(rows)) else IsBatchCut(rows, ps, e)
      ensures HoldsPass(old(View()), old(history), ps, e, now, cooldownSeconds)
    {
      var pending: seq<Row>;
      ps, pending, e := ObserveTagRows(rows, answers, now, cooldownSeconds);
      if !e.Whole? {
        return;
      }
      if pending == [] {
        WholePass(old(View()), ps, now, cooldownSeconds);
        return;
      }
      // Here the pending tags are pushed in one go: `answers.tagPush` is what comes of it.
      ps, e := ObservePending(old(View()), old(history), rows, ps, pending, answers, now, cooldownSeconds);
    }

    /** The rows from i on that the cap leaves; in the source a nested loop collects them while they are tags. */
    method CollectBatch(rows: seq<Row>, i: nat, cap: Option<int>, handled: nat) returns (j: nat)
      requires i <= |rows|
      ensures i <= j <= |rows|
      ensures forall l :: i <= l < j ==> rows[l].key.ref == ReleaseTag
      ensures cap.Some? ==> j - i <= Max(0, cap.value - handled)
      ensures j < |rows| && (cap.Some? ==> j - i < cap.value - handled) ==> rows[j].key.ref != ReleaseTag
    {
      j := i;
      while j < |rows| && (cap.None? || j - i < cap.value - handled)
        invariant i <= j <= |rows|
        invariant forall l :: i <= l < j ==> rows[l].key.ref == ReleaseTag
        invariant cap.Some? ==> j - i <= Max(0, cap.value - handled)
        decreases |rows| - j
      {
        if rows[j].key.ref != ReleaseTag {
          return;
        }
        j := j + 1;
      }
    }

    /** The turn of the loop at the first tag. */
    method ProcessTagRows(ghost before: Tables, ghost start: seq<Tables>, rows: seq<Row>, ps: seq<Processed>, i: nat,
            answers: Answers, cap: Option<int>, now: int, cooldownSeconds: int)
      returns (batch: seq<Processed>, e: Ending)
      requires IsSelection(rows, before.tasks, now) && MainsHandled(rows, ps, cap, i)
      requires i < |rows| && rows[i].key.ref == ReleaseTag && (cap.Some? ==> |ps| < cap.value)
      requires HoldsRecords(before, start, ps, now, cooldownSeconds)
      modifies this
      ensures IsAnyPass(rows, ps + batch, e, cap)
      ensures AreOutcomes(answers, batch) && IsEndingOutcome(answers, e)
      ensures HoldsPass(before, start, ps + batch, e, now, cooldownSeconds)
    {
      TagsFollowMains(rows);
      var j := CollectBatch(rows, i, cap, |ps|);
      BatchReachesLimit(rows, ps, cap, i, j);
      SliceRows(rows, i, j);
      batch, e := ProcessTagBatch(rows[i..j], answers, now, cooldownSeconds);
      PassAppendAfter(start, before, ps, batch, e, now, cooldownSeconds);
      BatchFromRows(rows, ps, batch, cap, i, j);
      if e.Whole? {
        BatchCompletesPass(rows, ps, batch, cap, i, j);
      } else {
        BatchCutsPass(rows, ps, batch, e, cap, i, j);
      }
    }

    /** The turn of the loop at a main. */
    method ProcessMain(ghost before: Tables, ghost start: seq<Tables>, rows: seq<Row>, ps: seq<Processed>, i: nat,
            answers: Answers, cap: Option<int>, now: int, cooldownSeconds: int)
      returns (more: seq<Processed>, e: Ending)
      requires MainsHandled(rows, ps, cap, i)
      requires i < |rows| && rows[i].key.ref == Main && (cap.Some? ==> |ps| < cap.value)
      requires HoldsRecords(before, start, ps, now, cooldownSeconds)
      modifies this
      ensures e.Whole? ==> |more| == 1
      ensures AreOutcomes(answers, more) && IsEndingOutcome(answers, e)
      ensures if e.Whole? && more[0].failure.None? then MainsHandled(rows, ps + more, cap, i + 1)
              else IsAnyPass(rows, ps + more, e, cap)
      ensures HoldsPass(before, start, ps + more, e, now, cooldownSeconds)
      ensures e.Whole? ==> HoldsRecords(before, start, ps + more, now, cooldownSeconds)
    {
      more, e := ProcessMainRow(rows[i], answers, now, cooldownSeconds);
      PassAppendAfter(start, before, ps, more, e, now, cooldownSeconds);
      if e.Whole? {
        assert more == [more[0]];
        WholePass(before, ps + more, now, cooldownSeconds);
        MainTurn(rows, ps, more[0], cap, i);
      } else {
        assert ps + more == ps;
        MainCutsPass(rows, ps, e, cap, i);
      }
    }

    /** The loop over the selected rows. */
    method ProcessRows(rows: seq<Row>, answers: Answers, cap: Option<int>, now: int, cooldownSeconds: int)
      returns (ps: seq<Processed>, e: Ending)
      requires IsSelection(rows, tasks, now)
      modifies this
      ensures IsAnyPass(rows, ps, e, cap)
      ensures AreOutcomes(answers, ps) && IsEndingOutcome(answers, e)
      ensures HoldsPass(old(View()), old(history), ps, e, now, cooldownSeconds)
    {
      ghost var before, start := View(), history;
      ps, e := [], Whole;
      var i := 0;
      while i < |rows|
        invariant e.Whole? && MainsHandled(rows, ps, cap, i) && AreOutcomes(answers, ps)
        invariant HoldsRecords(before, start, ps, now, cooldownSeconds)
        decreases |rows| - i
      {
        if cap.Some? && |ps| >= cap.value {
          break;
        }
        var more: seq<Processed>;
        if rows[i].key.ref == ReleaseTag {
          // The batch takes every row that the cap leaves, so the next turn or the loop's test ends the pass.
          more, e := ProcessTagRows(before, start, rows, ps, i, answers, cap, now, cooldownSeconds);
          OutcomesAppend(answers, ps, more);
          return ps + more, e;
        }
        more, e := ProcessMain(before, start, rows, ps, i, answers, cap, now, cooldownSeconds);
        OutcomesAppend(answers, ps, more);
        ps := ps + more;
        if !e.Whole? || more[0].failure.Some? {
          return;
        }
        i := i + 1;
      }
      MainsArePass(rows, ps, cap, i);
      WholePass(before, ps, now, cooldownSeconds);
    }

    /** The pass over what is due. */
    method ProcessDue(answers: Answers, cooldownSeconds: int, cap: Option<int>, now: int)
      returns (ps: seq<Processed>, e: Ending, rows: seq<Row>)
      modifies this
      ensures IsSelection(rows, old(tasks), now) && IsAnyPass(rows, ps, e, cap)
      ensures View() == AfterPass(old(View()), ps, e, now, cooldownSeconds)
      ensures history == old(history) + PassCommits(old(View()), ps, e, now, cooldownSeconds)
      ensures AreOutcomes(answers, ps) && IsEndingOutcome(answers, e)
    {
      rows := SelectDue(now);
      ps, e := ProcessRows(rows, answers, cap, now, cooldownSeconds);
    }

    /**
     * `process_git_push_queue`: what is left of the tables is exactly the recorded updates, one after another, and
     * those form a pass over the selected rows, whatever raises in it. Each records what the remote's answers call
     * for, and so in every state that is committed only what was seen on the remote, or pushed without an error if it
     * is main, has become done.
     */
    method ProcessGitPushQueue(dryRun: bool, answers: Answers, cooldownSeconds: int, cap: Option<int>, now: int)
      returns (ps: seq<Processed>, e: Ending, ghost rows: seq<Row>)
      modifies this
      ensures Keeps(old(View()), View())
      ensures dryRun ==> ps == [] && e.Whole? && View() == old(View()) && history == old(history)
      ensures !dryRun ==>
        && IsSelection(rows, old(tasks), now)
        && IsAnyPass(rows, ps, e, cap)
        && View() == AfterPass(old(View()), ps, e, now, cooldownSeconds)
        && history == old(history) + PassCommits(old(View()), ps, e, now, cooldownSeconds)
      ensures AreOutcomes(answers, ps) && IsEndingOutcome(answers, e)
      ensures OnlySeenDone(answers, old(View()), View())
      ensures AllOnlySeen(answers, old(View()), history[|old(history)|..])
      ensures e.Whole? ==> EachDoneIfSeen(answers, View(), ps)
    {
      ps, e, rows := [], Whole, [];
      KeepsRefl(View());
      if dryRun {
        return;
      }
      ps, e, rows := ProcessDue(answers, cooldownSeconds, cap, now);
      StepKeeps(old(View()), Pass(ps, e, now, cooldownSeconds));
      PassMarksSeen(answers, old(View()), rows, ps, e, cap, now, cooldownSeconds);
    }

    // ----- Repeated passes and whole runs -----

    /**
     * Passes at one fixed time until nothing is due or an update raises out of one: at most as many as there were due
     * tasks.
     */
    method Drain(cooldownSeconds: int, cap: Option<int>, now: int) returns (passes: nat, raised: bool)
      requires now >= 0 && cooldownSeconds >= 1 && (cap.Some? ==> cap.value >= 1)
      modifies this
      ensures raised || DueKeys(tasks, now) == {}
      ensures passes <= |old(DueKeys(tasks, now))|
      ensures Keeps(old(View()), View())
    {
      passes, raised := 0, false;
      KeepsRefl(View());
      while DueKeys(tasks, now) != {}
        invariant !raised && passes + |DueKeys(tasks, now)| <= |old(DueKeys(tasks, now))|
        invariant Keeps(old(View()), View())
        decreases |DueKeys(tasks, now)|
      {
        ghost var before := View();
        var answers := Answer<Answers>();
        var ps, e, rows := ProcessGitPushQueue(false, answers, cooldownSeconds, cap, now);
        KeepsTransitive(old(View()), before, View());
        passes := passes + 1;
        if Raised(e) {
          return passes, true;
        }
        AnyPassShrinksDue(before, rows, ps, e, cap, now, cooldownSeconds);
      }
    }

    /** One operation, whichever it is; a pass in a dry run does nothing. */
    method AnyOperation() returns (ghost step: Step)
      modifies this
      ensures IsStep(old(View()), step) && View() == AfterStep(old(View()), step)
      ensures history == old(history) + StepCommits(old(View()), step)
    {
      var choice := Answer<int>();
      var release := Answer<Release>();
      var dryRun := Answer<bool>();
      var clock := Answer<int>();
      var raised: bool;
      if choice == 0 {
        raised, step := EnsureMainPushed(release, dryRun, clock);
      } else if choice == 1 {
        raised, step := EnsureTagQueued(release, dryRun, clock);
      } else if choice == 2 {
        step := ObserveTagPushed(release);
      } else {
        var cooldownSeconds := Answer<int>();
        var cap := Answer<Option<int>>();
        var answers := Answer<Answers>();
        var ps, e, rows := ProcessGitPushQueue(dryRun, answers, cooldownSeconds, cap, clock);
        step := if dryRun then Ensure(Key(release, Main), clock, false, false) else Pass(ps, e, clock, cooldownSeconds);
      }
    }

    /**
     * Any number of operations from any state. A done task is never changed again exactly if no pass lost one; the
     * attempts of a task stay its logged cooldowns; every done task has its stage done if no pass ended with half of
     * a done update; and the stage of a stuck main push (CrashLeavesStuck) is never marked done.
     */
    method Run(operations: nat) returns (ghost steps: seq<Step>)
      modifies this
      ensures IsRun(old(View()), steps) && View() == AfterRun(old(View()), steps)
      ensures history == old(history) + RunCommits(old(View()), steps)
      ensures KeptFrom(old(View()), history[|old(history)|..]) <==> NoneLost(steps)
      ensures old(Counted(View())) ==> Counted(View())
      ensures old(DoneStaged(View())) && NoneHalfDone(steps) ==> DoneStaged(View())
      ensures forall r :: Stuck(old(View()), r) ==> Stuck(View(), r)
    {
      steps := [];
      for operation := 0 to operations
        invariant IsRun(old(View()), steps) && View() == AfterRun(old(View()), steps)
        invariant history == old(history) + RunCommits(old(View()), steps)
      {
        ghost var step := AnyOperation();
        RunSnoc(old(View()), steps, step);
        Assoc(old(history), RunCommits(old(View()), steps), StepCommits(AfterRun(old(View()), steps), step));
        steps := steps + [step];
      }
      DoneFinalExactly(old(View()), steps);
      RunCounted(old(View()), steps);
      if old(DoneStaged(View())) && NoneHalfDone(steps) {
        RunStaged(old(View()), steps);
      }
    }
  }

  lemma HandlerCoolsDown(rows: seq<Row>, ps: seq<Processed>, e: Ending, cap: Option<int>)
    requires IsAnyPass(rows, ps, e, cap)
    ensures e.Handled? ==> e.handler.p.failure.Some?
  {
  }

  lemma PassMarksSeen(answers: Answers, t: Tables, rows: seq<Row>, ps: seq<Processed>, e: Ending, cap: Option<int>,
          now: int, defaultSeconds: int)
    requires IsSelection(rows, t.tasks, now) && IsAnyPass(rows, ps, e, cap)
    requires AreOutcomes(answers, ps) && IsEndingOutcome(answers, e)
    ensures OnlySeenDone(answers, t, AfterPass(t, ps, e, now, defaultSeconds))
    ensures AllOnlySeen(answers, t, PassCommits(t, ps, e, now, defaultSeconds))
    ensures e.Whole? ==> EachDoneIfSeen(answers, AfterPass(t, ps, e, now, defaultSeconds), ps)
  {
    HandlerCoolsDown(rows, ps, e, cap);
    PassMarksOnlySeen(answers, t, ps, e, now, defaultSeconds);
    if e.Whole? {
      PassHandles(rows, ps, cap);
      forall i | 0 <= i < |ps| ensures IsDone(AfterPass(t, ps, e, now, defaultSeconds), ps[i].key)
                                       <==> Seen(answers, ps[i].key) {
        WholePassMarksSeen(answers, t, ps, now, defaultSeconds, i);
      }
    }
  }

  predicate OnlyTags(rows: seq<Row>) {
    forall i :: 0 <= i < |rows| ==> rows[i].key.ref == ReleaseTag
  }

  // ----- The loop over the rows -----

  /** While only mains were handled: each of the first i rows, and each was done. */
  predicate MainsHandled(rows: seq<Row>, ps: seq<Processed>, cap: Option<int>, i: nat) {
    && i == |ps| <= MainCount(rows)
    && (cap.Some? ==> i <= Max(0, cap.value))
    && forall j :: 0 <= j < i ==> IsRecordOf(ps[j], rows[j]) && ps[j].failure.None?
  }

  lemma MainsFromRows(rows: seq<Row>, ps: seq<Processed>, cap: Option<int>, i: nat)
    requires MainsHandled(rows, ps, cap, i)
    ensures FromRows(rows, ps)
  {
    forall j | 0 <= j < |ps| ensures HasRow(rows, ps[j]) {
      assert IsRecordOf(ps[j], rows[j]);
    }
  }

  lemma MainsArePass(rows: seq<Row>, ps: seq<Processed>, cap: Option<int>, i: nat)
    requires MainsHandled(rows, ps, cap, i)
    requires i == |rows| || (cap.Some? && |ps| >= cap.value)
    ensures IsAnyPass(rows, ps, Whole, cap)
  {
    MainsFromRows(rows, ps, cap, i);
  }

  /** A main that cools down ends the pass. */
  lemma MainFailureEndsPass(rows: seq<Row>, ps: seq<Processed>, p: Processed, cap: Option<int>, i: nat)
    requires MainsHandled(rows, ps, cap, i) && i < |rows| && (cap.Some? ==> i < cap.value)
    requires rows[i].key.ref == Main && IsRecordOf(p, rows[i]) && p.failure.Some?
    ensures IsAnyPass(rows, ps + [p], Whole, cap)
  {
    MainsFromRows(rows, ps, cap, i);
    RecordHasRow(rows, i, p);
    MainFailureIsLast(rows, ps, p, cap, i);
  }

  lemma MainTurn(rows: seq<Row>, ps: seq<Processed>, p: Processed, cap: Option<int>, i: nat)
    requires MainsHandled(rows, ps, cap, i) && i < |rows| && (cap.Some? ==> i < cap.value)
    requires rows[i].key.ref == Main && IsRecordOf(p, rows[i])
    ensures if p.failure.None? then MainsHandled(rows, ps + [p], cap, i + 1) else IsAnyPass(rows, ps + [p], Whole, cap)
  {
    if p.failure.Some? {
      MainFailureEndsPass(rows, ps, p, cap, i);
    }
  }

  lemma MainFailureIsLast(rows: seq<Row>, ps: seq<Processed>, p: Processed, cap: Option<int>, i: nat)
    requires MainsHandled(rows, ps, cap, i) && i < |rows| && (cap.Some? ==> i < cap.value)
    requires rows[i].key.ref == Main && p.key == rows[i].key && p.failure.Some?
    ensures IsPass(rows, ps + [p], cap)
  {
    var n, m := Allowed(rows, cap), Min(MainCount(rows), Allowed(rows, cap));
    var all := ps + [p];
    assert i < m <= n;
    if |all| == n {
      assert ProcessedKeys(all)[m..] == [] && RowKeys(rows)[m..n] == [];
    }
  }

  lemma RecordHasRow(rows: seq<Row>, i: nat, p: Processed)
    requires i < |rows| && IsRecordOf(p, rows[i])
    ensures HasRow(rows, p)
  {
  }

  lemma PendingHasRow(rows: seq<Row>, pending: seq<Row>, i: nat, p: Processed)
    requires i < |pending| && (forall r <- pending :: r in rows) && IsRecordOf(p, pending[i])
    ensures HasRow(rows, p)
  {
    assert pending[i] in rows;
  }

  /** So does a main whose update raises. */
  lemma MainCutsPass(rows: seq<Row>, ps: seq<Processed>, e: Ending, cap: Option<int>, i: nat)
    requires MainsHandled(rows, ps, cap, i) && i < |rows| && (cap.Some? ==> i < cap.value)
    requires rows[i].key.ref == Main && IsMainEnding(rows[i], e)
    ensures IsAnyPass(rows, ps, e, cap)
  {
    MainsFromRows(rows, ps, cap, i);
    assert i < Min(MainCount(rows), Allowed(rows, cap));
  }

  /** The batch that starts at the first tag takes all the rows that the cap leaves. */
  lemma BatchReachesLimit(rows: seq<Row>, ps: seq<Processed>, cap: Option<int>, i: nat, j: nat)
    requires MainsHandled(rows, ps, cap, i) && i < |rows| && rows[i].key.ref == ReleaseTag
    requires forall l :: MainCount(rows) <= l < |rows| ==> rows[l].key.ref == ReleaseTag
    requires cap.Some? ==> |ps| < cap.value
    requires i <= j <= |rows| && (cap.Some? ==> j - i <= Max(0, cap.value - |ps|))
    requires j < |rows| && (cap.Some? ==> j - i < cap.value - |ps|) ==> rows[j].key.ref != ReleaseTag
    ensures i == MainCount(rows) && j == Allowed(rows, cap)
  {
  }

  lemma SliceRows(rows: seq<Row>, i: nat, j: nat)
    requires i <= j <= |rows| && DistinctRows(rows)
    ensures DistinctRows(rows[i..j])
    ensures forall l :: 0 <= l < j - i ==> rows[i..j][l] == rows[i + l]
    ensures RowKeys(rows[i..j]) == RowKeys(rows)[i..j]
  {
  }

  lemma BatchFromRows(rows: seq<Row>, ps: seq<Processed>, batch: seq<Processed>, cap: Option<int>, i: nat, j: nat)
    requires MainsHandled(rows, ps, cap, i) && i <= j <= |rows| && FromRows(rows[i..j], batch)
    ensures FromRows(rows, ps + batch)
  {
    MainsFromRows(rows, ps, cap, i);
    forall l | 0 <= l < |batch| ensures HasRow(rows, batch[l]) {
      WiderRows(rows, i, j, batch[l]);
    }
  }

  lemma WiderRows(rows: seq<Row>, i: nat, j: nat, p: Processed)
    requires i <= j <= |rows| && HasRow(rows[i..j], p)
    ensures HasRow(rows, p)
  {
    var l :| 0 <= l < j - i && IsRecordOf(p, rows[i..j][l]);
    assert IsRecordOf(p, rows[i + l]);
  }

  lemma BatchCompletesPass(rows: seq<Row>, ps: seq<Processed>, batch: seq<Processed>, cap: Option<int>, i: nat, j: nat)
    requires MainsHandled(rows, ps, cap, i) && i == MainCount(rows) <= j == Allowed(rows, cap)
    requires multiset(ProcessedKeys(batch)) == multiset(RowKeys(rows)[i..j])
    ensures IsPass(rows, ps + batch, cap)
  {
    var all := ps + batch;
    assert |batch| == |multiset(ProcessedKeys(batch))| == |multiset(RowKeys(rows)[i..j])| == j - i;
    assert ProcessedKeys(all)[i..] == ProcessedKeys(batch);
  }

  lemma BatchCutsPass(rows: seq<Row>, ps: seq<Processed>, batch: seq<Processed>, e: Ending, cap: Option<int>, i: nat,
          j: nat)
    requires MainsHandled(rows, ps, cap, i) && i == MainCount(rows) <= j == Allowed(rows, cap)
    requires IsBatchCut(rows[i..j], batch, e) && RowKeys(rows[i..j]) == RowKeys(rows)[i..j]
    ensures IsCutShort(rows, ps + batch, e, cap)
  {
    var all, keys := ps + batch, HandledKeys(batch, e);
    assert HandledKeys(all, e)[i..] == keys;
    SubsetSize(keys, RowKeys(rows)[i..j]);
    WiderRows(rows, i, j, e.last.p);
  }

  lemma SubsetSize(a: seq<Key>, b: seq<Key>)
    requires multiset(a) <= multiset(b)
    ensures |a| <= |b|
  {
    assert multiset(b) == multiset(a) + (multiset(b) - multiset(a));
    assert |a| == |multiset(a)| && |b| == |multiset(b)|;
  }

  // ----- Sorting the selection -----

  function InsertRow(row: Row, rows: seq<Row>): seq<Row> {
    if rows == [] || NotAfter(row, rows[0]) then [row] + rows else [rows[0]] + InsertRow(row, rows[1..])
  }

  lemma {:induction false} InsertProperties(row: Row, rows: seq<Row>)
    ensures |InsertRow(row, rows)| == |rows| + 1
    ensures forall r :: r in InsertRow(row, rows) <==> r == row || r in rows
    ensures forall k :: k in RowKeys(InsertRow(row, rows)) <==> k == row.key || k in RowKeys(rows)
    ensures Sorted(rows) ==> Sorted(InsertRow(row, rows))
    ensures DistinctRows(rows) && row.key !in RowKeys(rows) ==> DistinctRows(InsertRow(row, rows))
  {
    InsertElements(row, rows);
    InsertKeys(row, rows);
    if Sorted(rows) {
      InsertSorted(row, rows);
    }
    if DistinctRows(rows) && row.key !in RowKeys(rows) {
      InsertDistinct(row, rows);
    }
  }

  lemma {:induction false} InsertElements(row: Row, rows: seq<Row>)
    ensures |InsertRow(row, rows)| == |rows| + 1
    ensures forall r :: r in InsertRow(row, rows) <==> r == row || r in rows
  {
    if rows != [] && !NotAfter(row, rows[0]) {
      InsertElements(row, rows[1..]);
      assert rows == [rows[0]] + rows[1..];
    }
  }

  lemma InsertKeys(row: Row, rows: seq<Row>)
    ensures forall k :: k in RowKeys(InsertRow(row, rows)) <==> k == row.key || k in RowKeys(rows)
  {
    var after := InsertRow(row, rows);
    InsertElements(row, rows);
    forall k ensures k in RowKeys(after) <==> k == row.key || k in RowKeys(rows) {
      if k in RowKeys(after) {
        var i :| 0 <= i < |after| && RowKeys(after)[i] == k;
        assert after[i] in after;
        if after[i] != row {
          var j :| 0 <= j < |rows| && rows[j] == after[i];
          assert RowKeys(rows)[j] == k;
        }
      }
      if k in RowKeys(rows) {
        var j :| 0 <= j < |rows| && RowKeys(rows)[j] == k;
        assert rows[j] in after;
        var i :| 0 <= i < |after| && after[i] == rows[j];
        assert RowKeys(after)[i] == k;
      }
      if k == row.key {
        assert row in after;
        var i :| 0 <= i < |after| && after[i] == row;
        assert RowKeys(after)[i] == k;
      }
    }
  }

  lemma {:induction false} InsertSorted(row: Row, rows: seq<Row>)
    requires Sorted(rows)
    ensures Sorted(InsertRow(row, rows))
  {
    var after := InsertRow(row, rows);
    if rows == [] {
    } else if NotAfter(row, rows[0]) {
      assert forall j :: 1 <= j < |after| ==> after[j] == rows[j - 1];
      forall j | 0 <= j < |rows| ensures NotAfter(row, rows[j]) {
        assert j == 0 || NotAfter(rows[0], rows[j]);
      }
    } else {
      InsertSorted(row, rows[1..]);
      InsertElements(row, rows[1..]);
      var tail := InsertRow(row, rows[1..]);
      assert after == [rows[0]] + tail;
      forall j | 0 <= j < |tail| ensures NotAfter(rows[0], tail[j]) {
        assert tail[j] in tail;
        if tail[j] != row {
          var i :| 0 <= i < |rows| - 1 && rows[1..][i] == tail[j];
          assert NotAfter(rows[0], rows[i + 1]);
        }
      }
    }
  }

  lemma {:induction false} InsertDistinct(row: Row, rows: seq<Row>)
    requires DistinctRows(rows) && row.key !in RowKeys(rows)
    ensures DistinctRows(InsertRow(row, rows))
  {
    var after := InsertRow(row, rows);
    assert forall j :: 0 <= j < |rows| ==> rows[j].key == RowKeys(rows)[j] != row.key;
    if rows == [] || NotAfter(row, rows[0]) {
      assert forall j :: 1 <= j < |after| ==> after[j] == rows[j - 1];
    } else {
      var tail := InsertRow(row, rows[1..]);
      assert forall j :: 0 <= j < |rows| - 1 ==> RowKeys(rows[1..])[j] == rows[j + 1].key;
      InsertDistinct(row, rows[1..]);
      InsertElements(row, rows[1..]);
      assert after == [rows[0]] + tail;
      forall j | 0 <= j < |tail| ensures tail[j].key != rows[0].key {
        assert tail[j] in tail;
        if tail[j] != row {
          var i :| 0 <= i < |rows| - 1 && rows[1..][i] == tail[j];
          assert rows[0].key != rows[i + 1].key;
        }
      }
    }
  }

  lemma NotAmongRows(rows: seq<Row>, k: Key)
    requires forall r :: r in rows ==> r.key != k
    ensures k !in RowKeys(rows)
  {
    forall i | 0 <= i < |rows| ensures RowKeys(rows)[i] != k {
      assert rows[i] in rows;
    }
  }

  // ----- Accounting for a batch -----

  /** The handled and the pending rows together are the given ones. */
  predicate Accounted(ps: seq<Processed>, pending: seq<Row>, rows: seq<Row>) {
    multiset(ProcessedKeys(ps)) + multiset(RowKeys(pending)) == multiset(RowKeys(rows))
  }

  lemma RowsStep(rows: seq<Row>, i: nat)
    requires i < |rows|
    ensures RowKeys(rows[..i + 1]) == RowKeys(rows[..i]) + [rows[i].key] == RowKeys(rows)[..i + 1]
  {
  }

  lemma RecordsGrow(ps: seq<Processed>, pending: seq<Row>, rows: seq<Row>, i: nat, p: Processed)
    requires i < |rows| && Accounted(ps, pending, rows[..i]) && p.key == rows[i].key
    ensures Accounted(ps + [p], pending, rows[..i + 1]) && RowKeys(rows[..i + 1]) == RowKeys(rows)[..i + 1]
  {
    RowsStep(rows, i);
    assert ProcessedKeys(ps + [p]) == ProcessedKeys(ps) + [p.key];
  }

  lemma PendingGrows(ps: seq<Processed>, pending: seq<Row>, rows: seq<Row>, i: nat)
    requires i < |rows| && Accounted(ps, pending, rows[..i])
    ensures Accounted(ps, pending + [rows[i]], rows[..i + 1])
  {
    RowsStep(rows, i);
    assert RowKeys(pending + [rows[i]]) == RowKeys(pending) + [rows[i].key];
  }

  lemma PendingStep(ps: seq<Processed>, pending: seq<Row>, rows: seq<Row>, i: nat, p: Processed)
    requires i < |pending| && Accounted(ps, pending[i..], rows) && p.key == pending[i].key
    ensures Accounted(ps + [p], pending[i + 1..], rows)
  {
    assert RowKeys(pending[i..]) == [p.key] + RowKeys(pending[i + 1..]);
    assert ProcessedKeys(ps + [p]) == ProcessedKeys(ps) + [p.key];
  }

  /** The update of one of the rows of a batch raised, after those of some others. */
  predicate IsBatchCut(rows: seq<Row>, ps: seq<Processed>, e: Ending) {
    && e.Aborted? && e.last.fault != NoFault && HasRow(rows, e.last.p)
    && multiset(HandledKeys(ps, e)) <= multiset(RowKeys(rows))
  }

  lemma CutAccounted(ps: seq<Processed>, pending: seq<Row>, rows: seq<Row>, w: Write)
    requires Accounted(ps + [w.p], pending, rows)
    ensures multiset(HandledKeys(ps, Aborted(w))) <= multiset(RowKeys(rows))
  {
    assert HandledKeys(ps, Aborted(w)) == ProcessedKeys(ps + [w.p]);
  }

  lemma OneRecord(t: Tables, w: Write, now: int, defaultSeconds: int)
    requires w.fault == NoFault
    ensures AfterPass(t, [w.p], Whole, now, defaultSeconds) == AfterWrite(t, w, now, defaultSeconds)
    ensures PassCommits(t, [w.p], Whole, now, defaultSeconds) == WriteCommits(t, w, now, defaultSeconds)
  {
    AllSnoc(t, [], w.p, now, defaultSeconds);
    assert [] + [w.p] == [w.p] && w == Write(w.p, NoFault);
  }

  /** A probe that raises in a tag batch ends the pass as an update would that raises before it writes. */
  function NothingWritten(row: Row): Write {
    Write(Processed(row.key, None, row.attempts, 0), BeforeCommit)
  }

  lemma NothingCommitted(t: Tables, ps: seq<Processed>, w: Write, now: int, defaultSeconds: int)
    requires w.fault == BeforeCommit
    ensures AfterPass(t, ps, Aborted(w), now, defaultSeconds) == AfterAll(t, ps, now, defaultSeconds)
    ensures PassCommits(t, ps, Aborted(w), now, defaultSeconds) == AllCommits(t, ps, now, defaultSeconds)
  {
  }

  lemma FromRowsSnoc(rows: seq<Row>, ps: seq<Processed>, p: Processed)
    requires FromRows(rows, ps) && HasRow(rows, p)
    ensures FromRows(rows, ps + [p])
  {
  }

  lemma FirstLoopTurn(ps: seq<Processed>, pending: seq<Row>, rows: seq<Row>, i: nat, w: Write)
    requires i < |rows| && FromRows(rows, ps) && Accounted(ps, pending, rows[..i]) && IsRecordOf(w.p, rows[i])
    ensures FromRows(rows, ps + [w.p]) && Accounted(ps + [w.p], pending, rows[..i + 1])
    ensures w.fault != NoFault ==> IsBatchCut(rows, ps, Aborted(w))
  {
    RecordHasRow(rows, i, w.p);
    FromRowsSnoc(rows, ps, w.p);
    RecordsGrow(ps, pending, rows, i, w.p);
    CutAccounted(ps, pending, rows[..i + 1], w);
    PrefixCounts(RowKeys(rows), i + 1);
  }

  /** Tags of the batch that go into its push. */
  predicate ArePending(answers: Answers, pending: seq<Row>, rows: seq<Row>) {
    && (forall r <- pending :: r in rows)
    && forall i :: 0 <= i < |pending| ==> pending[i].key.ref == ReleaseTag && IsPending(answers, pending[i].key)
  }

  lemma PendingTurn(answers: Answers, pending: seq<Row>, rows: seq<Row>, i: nat)
    requires i < |rows| && OnlyTags(rows) && ArePending(answers, pending, rows) && IsPending(answers, rows[i].key)
    ensures ArePending(answers, pending + [rows[i]], rows)
  {
  }

  lemma SecondLoopTurn(ps: seq<Processed>, pending: seq<Row>, rows: seq<Row>, i: nat, w: Write)
    requires i < |pending| && (forall r <- pending :: r in rows) && IsRecordOf(w.p, pending[i])
    requires FromRows(rows, ps) && Accounted(ps, pending[i..], rows)
    ensures FromRows(rows, ps + [w.p]) && Accounted(ps + [w.p], pending[i + 1..], rows)
    ensures w.fault != NoFault ==> IsBatchCut(rows, ps, Aborted(w))
  {
    PendingHasRow(rows, pending, i, w.p);
    FromRowsSnoc(rows, ps, w.p);
    PendingStep(ps, pending, rows, i, w.p);
    CutAccounted(ps, pending[i + 1..], rows, w);
  }
}
