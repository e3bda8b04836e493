/**
 * What becomes of a task in a pass, given what the remote answers: the reason it cools down, and that in every state
 * a pass commits, only what was seen on the remote, or pushed without an error if it is main, became done.
 */
module PushOutcome {
  import opened World
  import opened PushQueue
  import opened PushLedger
  import opened PushHistory

  /** `git_push_remote_status`: converged, or not, in which case a failed probe has a reason; or it raised. */
  datatype RemoteStatus = Converged | NotConverged(probeFailure: Option<Reason>) | ProbeRaised(exception: Reason)

  /**
   * What the remote answers in one pass: to the probe of each task, to the second probe of a tag that was pushed, to
   * the push of a main, and to the one push of the batch of tags. A push without a reason is one that succeeded.
   */
  datatype Answers = Answers(first: Key -> RemoteStatus, again: Key -> RemoteStatus,
                             mainPush: Key -> Option<Reason>, tagPush: Option<Reason>)

  /** Why a main is not done: its probe failed or raised, or the push did; a main that is there is done. */
  function MainFailure(status: RemoteStatus, pushFailure: Option<Reason>): Option<Reason> {
    match status
    case Converged => None
    case NotConverged(reason) => if reason.Some? then reason else pushFailure
    case ProbeRaised(exception) => Some(exception)
  }

  predicate AttemptRaised(status: RemoteStatus, pushFailure: Option<Reason>) {
    status.ProbeRaised? || (status == NotConverged(None) && pushFailure.Some?)
  }

  /** The tag goes into the batch: its first probe neither saw it nor failed. */
  predicate IsPending(answers: Answers, k: Key) {
    answers.first(k) == NotConverged(None)
  }

  /** The probe that decides about a tag: the second one if the tag was pushed in between. */
  function LastProbe(answers: Answers, k: Key): RemoteStatus {
    if IsPending(answers, k) then answers.again(k) else answers.first(k)
  }

  /** A main that is there or was pushed without an error; a tag that its last probe saw on the remote. */
  predicate Seen(answers: Answers, k: Key) {
    match k.ref
    case Main => answers.first(k) == Converged || (IsPending(answers, k) && answers.mainPush(k) == None)
    case ReleaseTag => LastProbe(answers, k) == Converged
  }

  /** The reason to record for a tag: that of its last probe, else that of the push, else that it was not seen. */
  predicate IsTagFailure(answers: Answers, k: Key, reason: Reason) {
    match LastProbe(answers, k)
    case NotConverged(Some(probeFailure)) => reason == probeFailure
    case NotConverged(None) =>
      if answers.tagPush.Some? then reason == answers.tagPush.value
      else reason == OtherReason("git_push_not_observed_after_batch")
    case _ => false
  }

  /** What is to be recorded of a task: done exactly if it was seen, and else the right reason. */
  predicate IsFailureOf(answers: Answers, k: Key, failure: Option<Reason>) {
    match failure
    case None => Seen(answers, k)
    case Some(reason) =>
      && !Seen(answers, k)
      && match k.ref
         case Main => Some(reason) == MainFailure(answers.first(k), answers.mainPush(k))
         case ReleaseTag => IsTagFailure(answers, k, reason)
  }

  predicate IsOutcome(answers: Answers, p: Processed) {
    IsFailureOf(answers, p.key, p.failure)
  }

  predicate AreOutcomes(answers: Answers, ps: seq<Processed>) {
    forall i :: 0 <= i < |ps| ==> IsOutcome(answers, ps[i])
  }

  /** An update that raised had the right outcome to write; a tag's pass also ends when one of its probes raises. */
  predicate IsEndingOutcome(answers: Answers, e: Ending) {
    match e
    case Whole => true
    case Aborted(w) =>
      || IsOutcome(answers, w.p)
      || (w.fault == BeforeCommit && w.p.key.ref == ReleaseTag && LastProbe(answers, w.p.key).ProbeRaised?)
    case Handled(w, _) => IsOutcome(answers, w.p)
  }

  /** What is done in the second state and not in the first was seen; the stages likewise. */
  ghost predicate OnlySeenDone(answers: Answers, a: Tables, b: Tables) {
    && (forall k :: IsDone(b, k) && !IsDone(a, k) ==> Seen(answers, k))
    && (forall k: Key :: IsStageDone(b, k.release, StageName(k.ref)) && !IsStageDone(a, k.release, StageName(k.ref))
          ==> Seen(answers, k))
  }

  lemma OnlySeenTransitive(answers: Answers, a: Tables, b: Tables, c: Tables)
    requires OnlySeenDone(answers, a, b) && OnlySeenDone(answers, b, c)
    ensures OnlySeenDone(answers, a, c)
  {
    forall k | IsDone(c, k) && !IsDone(a, k) ensures Seen(answers, k) {
      assert IsDone(b, k) || !IsDone(b, k);
    }
    forall k: Key | IsStageDone(c, k.release, StageName(k.ref)) && !IsStageDone(a, k.release, StageName(k.ref))
      ensures Seen(answers, k)
    {
      assert IsStageDone(b, k.release, StageName(k.ref)) || !IsStageDone(b, k.release, StageName(k.ref));
    }
  }

  /** All of the states follow from the first without marking done what was not seen. */
  ghost predicate AllOnlySeen(answers: Answers, a: Tables, states: seq<Tables>) {
    forall i :: 0 <= i < |states| ==> OnlySeenDone(answers, a, states[i])
  }

  lemma TaskUpdateSeen(answers: Answers, t: Tables, p: Processed, now: int, defaultSeconds: int)
    requires p.failure.None? ==> Seen(answers, p.key)
    ensures OnlySeenDone(answers, t, AfterTaskUpdate(t, p, now, defaultSeconds))
    ensures OnlySeenDone(answers, t, AfterUpdate(t, p, now, defaultSeconds))
  {
  }

  lemma WriteSeen(answers: Answers, t: Tables, w: Write, now: int, defaultSeconds: int)
    requires w.fault == BeforeCommit || (w.p.failure.None? ==> Seen(answers, w.p.key))
    ensures OnlySeenDone(answers, t, AfterWrite(t, w, now, defaultSeconds))
    ensures AllOnlySeen(answers, t, WriteCommits(t, w, now, defaultSeconds))
  {
    if w.fault != BeforeCommit {
      TaskUpdateSeen(answers, t, w.p, now, defaultSeconds);
    }
  }

  lemma SeenFurther(answers: Answers, a: Tables, b: Tables, states: seq<Tables>)
    requires OnlySeenDone(answers, a, b) && AllOnlySeen(answers, b, states)
    ensures AllOnlySeen(answers, a, states)
  {
    forall i | 0 <= i < |states| ensures OnlySeenDone(answers, a, states[i]) {
      OnlySeenTransitive(answers, a, b, states[i]);
    }
  }

  lemma {:induction false} RecordsSeen(answers: Answers, t: Tables, ps: seq<Processed>, now: int, defaultSeconds: int)
    requires AreOutcomes(answers, ps)
    ensures OnlySeenDone(answers, t, AfterAll(t, ps, now, defaultSeconds))
    ensures AllOnlySeen(answers, t, AllCommits(t, ps, now, defaultSeconds))
  {
    if ps != [] {
      var n := |ps| - 1;
      var before, w := AfterAll(t, ps[..n], now, defaultSeconds), Write(ps[n], NoFault);
      RecordsSeen(answers, t, ps[..n], now, defaultSeconds);
      WriteSeen(answers, before, w, now, defaultSeconds);
      SeenFurther(answers, t, before, WriteCommits(before, w, now, defaultSeconds));
      OnlySeenTransitive(answers, t, before, AfterWrite(before, w, now, defaultSeconds));
    }
  }

  lemma EndingSeen(answers: Answers, t: Tables, e: Ending, now: int, defaultSeconds: int)
    requires IsEndingOutcome(answers, e) && (e.Handled? ==> e.handler.p.failure.Some?)
    ensures OnlySeenDone(answers, t, AfterEnding(t, e, now, defaultSeconds))
    ensures AllOnlySeen(answers, t, EndingCommits(t, e, now, defaultSeconds))
  {
    match e
    case Whole =>
    case Aborted(w) => WriteSeen(answers, t, w, now, defaultSeconds);
    case Handled(w, h) =>
      var middle := AfterWrite(t, w, now, defaultSeconds);
      WriteSeen(answers, t, w, now, defaultSeconds);
      WriteSeen(answers, middle, h, now, defaultSeconds);
      SeenFurther(answers, t, middle, WriteCommits(middle, h, now, defaultSeconds));
      OnlySeenTransitive(answers, t, middle, AfterWrite(middle, h, now, defaultSeconds));
  }

  /**
   * In no state that a pass commits, whatever raises in it, is a task or a stage newly done that was not seen on the
   * remote, or pushed without an error if it is main.
   */
  lemma PassMarksOnlySeen(answers: Answers, t: Tables, ps: seq<Processed>, e: Ending, now: int, defaultSeconds: int)
    requires AreOutcomes(answers, ps) && IsEndingOutcome(answers, e)
    requires e.Handled? ==> e.handler.p.failure.Some?
    ensures OnlySeenDone(answers, t, AfterPass(t, ps, e, now, defaultSeconds))
    ensures AllOnlySeen(answers, t, PassCommits(t, ps, e, now, defaultSeconds))
  {
    var before := AfterAll(t, ps, now, defaultSeconds);
    RecordsSeen(answers, t, ps, now, defaultSeconds);
    EndingSeen(answers, before, e, now, defaultSeconds);
    SeenFurther(answers, t, before, EndingCommits(before, e, now, defaultSeconds));
    OnlySeenTransitive(answers, t, before, AfterEnding(before, e, now, defaultSeconds));
  }

  predicate EachDoneIfSeen(answers: Answers, t: Tables, ps: seq<Processed>) {
    forall i :: 0 <= i < |ps| ==> (IsDone(t, ps[i].key) <==> Seen(answers, ps[i].key))
  }

  /** After a pass in which nothing raised, a handled task is done exactly if it was seen, else it has its reason. */
  lemma WholePassMarksSeen(answers: Answers, t: Tables, ps: seq<Processed>, now: int, defaultSeconds: int, i: nat)
    requires AreOutcomes(answers, ps) && Distinct(ps) && i < |ps|
    ensures var after := AfterPass(t, ps, Whole, now, defaultSeconds);
      && ps[i].key in after.tasks
      && (IsDone(after, ps[i].key) <==> Seen(answers, ps[i].key))
      && after.tasks[ps[i].key].lastError == ps[i].failure
  {
    HandledTask(t, ps, now, defaultSeconds, i);
  }

  lemma OutcomesSnoc(answers: Answers, ps: seq<Processed>, p: Processed)
    requires AreOutcomes(answers, ps) && IsOutcome(answers, p)
    ensures AreOutcomes(answers, ps + [p])
  {
  }

  lemma OutcomesAppend(answers: Answers, ps: seq<Processed>, more: seq<Processed>)
    requires AreOutcomes(answers, ps) && AreOutcomes(answers, more)
    ensures AreOutcomes(answers, ps + more)
  {
  }
}
