/**
 * The stable release train over a local clone and the remote. Every external command may fail, and may fail after it
 * took effect; `Answer` stands for what the outside world says or does. The proof obligation of every method is that
 * whatever it does to the remote is a step of TrainTrace, so that what TrainTrace proves of traces holds of every run.
 */
module StableTrain {
  import opened StableVersions
  import opened TrainTrace
  import opened World

  const REMOTE_PUSH_ATTEMPTS := 3

  /** What `git push origin` is asked to push. */
  datatype Ref = MainRef | TagRef(version: Version)

  /** `publication_status`: `unknown` when a probe gave no answer. `complete` counts only when nothing is unknown. */
  datatype Publication = Publication(unknown: bool, complete: bool, npmComplete: bool, pythonVisible: bool)

  datatype Outcome = Raised | CycleSkipped | DryRun(version: Version) | Prepared(version: Version)
    | Published(version: Version)

  /**
   * What the refresh of the clone meets: whether the tree is clean and on main, which parts of the fetch get through,
   * whether the merge succeeds, and for the latest tag whether the probe gets an answer, its publication, and
   * whether it is deleted.
   */
  datatype Refresh = Refresh(cleanOnMain: bool, gotMain: bool, gotTags: bool, merged: bool, probed: bool,
                             status: Publication, deleted: bool)

  /** A greatest tag, or none if there is no tag. */
  predicate IsLatest(latest: Option<Version>, tags: map<Version, TagObject>) {
    match latest
    case None => tags == map[]
    case Some(v) => v in tags && forall u :: u in tags ==> !Before(v, u)
  }

  /** HEAD has moved past a tag that is not known to be on the remote and is known to be incomplete. */
  predicate IsSuperseded(tag: TagObject, head: Commit, onRemote: bool, status: Publication) {
    !onRemote && tag.commit != head && IsAncestor(tag.commit, head) && !status.unknown && !status.complete
  }

  /**
   * What a cycle learns from outside: the refresh, the selected version, whether a gate skips it, whether the probe
   * for its tag gets an answer, its publication, how a recovery goes, whether validation, `git commit` and `git tag`
   * succeed, and for how many turns CI is watched.
   */
  datatype Answers = Answers(refresh: Refresh, selected: Option<Version>, gateSkips: bool, tagProbed: bool,
                             status: Publication, aid: Aid, validated: bool, committed: bool, tagged: bool, polls: nat)
  {
    /** The three steps that make a new tag. */
    predicate Made() {
      validated && committed && tagged
    }
  }

  /** HEAD and the tags of the clone once it is refreshed, and the remote when the cycle has looked for the tag. */
  datatype View = View(head: Commit, tags: map<Version, TagObject>, remote: Remote)

  /** The gate holds for a version that has no local tag yet. */
  predicate Skips(answers: Answers, view: View) {
    answers.selected.Some? && answers.selected.value !in view.tags && answers.gateSkips
  }

  /** The selected version is tagged already, here or on the remote. */
  predicate Finds(answers: Answers, view: View) {
    && answers.selected.Some?
    && (answers.selected.value in view.tags || (answers.tagProbed && answers.selected.value in view.remote.tags))
  }

  /** The cycle goes on to make a new tag, if it is not a dry run. */
  predicate IsFresh(answers: Answers, view: View) {
    answers.selected.Some? && !Skips(answers, view) && !Finds(answers, view)
  }

  predicate IsTaggedAtHead(answers: Answers, view: View) {
    && answers.selected.Some? && answers.selected.value in view.tags
    && view.tags[answers.selected.value].commit == view.head
  }

  /** The selected version is tagged locally at HEAD, and its publication is known to be incomplete. */
  predicate Resumes(answers: Answers, view: View) {
    IsTaggedAtHead(answers, view) && !answers.status.unknown && !answers.status.complete
  }

  /** A cycle that publishes enters `push_and_dispatch`. */
  predicate EntersPublication(answers: Answers, view: View, dryRun: bool) {
    if IsFresh(answers, view) then !dryRun && answers.Made() else Resumes(answers, view)
  }

  /** A cycle that publishes enters `recover_existing_release`: the tag was found, and there is nothing to resume. */
  predicate EntersRecovery(answers: Answers, view: View) {
    && Finds(answers, view) && !Skips(answers, view) && !answers.status.unknown
    && (answers.status.complete || !IsTaggedAtHead(answers, view))
  }

  /** What the recovery of a release starts: publish-python.yml, and the writing of the GitHub release. */
  datatype Action = PublishPython(version: Version) | WriteRelease(version: Version)

  /**
   * What a recovery meets: the publication it sees, which of its attempts start publish-python.yml and see it
   * through, whether the GitHub release begins to be written, and whether it is written and seen complete at last.
   */
  datatype Aid = Aid(seen: Publication, starts: nat -> bool, publishes: nat -> bool, writing: bool, written: bool,
                     final: Publication)
  {
    predicate PublishesPython() {
      exists n :: 1 <= n <= 3 && starts(n) && publishes(n)
    }

    /** The release is known to be incomplete, and everything in front of the GitHub release is there or recovered. */
    predicate ReachesRelease() {
      && !seen.unknown && !seen.complete && seen.npmComplete
      && (seen.pythonVisible || PublishesPython())
    }

    function Started(n: nat): nat {
      if n == 0 then 0 else Started(n - 1) + if starts(n) then 1 else 0
    }
  }

  function Recovery(version: Version, attempts: nat, released: bool): seq<Action> {
    seq(attempts, _ => PublishPython(version)) + if released then [WriteRelease(version)] else []
  }

  /** Only a release known to be incomplete, with npm complete, is recovered; PyPI only if it is missing there. */
  predicate MayRecover(seen: Publication, attempts: nat, released: bool) {
    && (attempts > 0 || released ==> !seen.unknown && !seen.complete && seen.npmComplete)
    && (attempts > 0 ==> !seen.pythonVisible)
    && (released && !seen.pythonVisible ==> attempts > 0)
    && attempts <= 3
  }

  predicate IsFailure(c: Conclusion) {
    c == ActionRequired || c == Cancelled || c == Failure || c == StartupFailure || c == TimedOut
  }

  /** One exchange with the outside: a look at a ref of the remote, a push, a turn of watching CI, the dispatch. */
  datatype Call =
    | Check(ref: Ref, converged: bool)
    | Attempt(ref: Ref, pushed: bool)
    | Turn(commit: Commit, verdict: Verdict, refused: bool)
    | Start(version: Version, started: bool)
  {
    predicate Good() {
      match this
      case Check(_, converged) => converged
      case Attempt(_, pushed) => pushed
      case Turn(_, verdict, _) => verdict == CiPassed
      case Start(_, started) => started
    }
  }

  predicate Succeeded(calls: seq<Call>) {
    calls != [] && calls[|calls| - 1].Good()
  }

  /** Look, push, look, push and so on: the first success ends it, and without one all three pushes are made. */
  predicate IsPush(calls: seq<Call>, ref: Ref) {
    && (forall i :: 0 <= i < |calls| ==> IsTurnOf(calls[i], i, ref))
    && (forall i :: 0 <= i < |calls| - 1 ==> !calls[i].Good())
    && 0 < |calls| <= 7 && (|calls| < 7 ==> Succeeded(calls))
  }

  predicate IsTurnOf(call: Call, i: nat, ref: Ref) {
    if i % 2 == 0 then call.Check? && call.ref == ref else call.Attempt? && call.ref == ref
  }

  /** A push that has only failed so far. */
  predicate HasFailed(calls: seq<Call>, ref: Ref) {
    |calls| <= 7 && forall i :: 0 <= i < |calls| ==> IsTurnOf(calls[i], i, ref) && !calls[i].Good()
  }

  /** Its next call, which either ends it or fails as well. */
  lemma NextCall(calls: seq<Call>, ref: Ref, call: Call)
    requires HasFailed(calls, ref) && |calls| < 7 && IsTurnOf(call, |calls|, ref)
    ensures Succeeded(calls + [call]) <==> call.Good()
    ensures if call.Good() then IsPush(calls + [call], ref) else HasFailed(calls + [call], ref)
  {
  }

  lemma AllFailed(calls: seq<Call>, ref: Ref)
    requires HasFailed(calls, ref) && |calls| == 7
    ensures IsPush(calls, ref) && !Succeeded(calls)
  {
  }

  /** CI of that commit is watched until all passed, one failed, a restart was refused, or the turns are used up. */
  predicate IsWatch(calls: seq<Call>, commit: Commit, polls: nat) {
    && (forall i :: 0 <= i < |calls| ==> calls[i].Turn? && calls[i].commit == commit)
    && (forall i :: 0 <= i < |calls| - 1 ==> calls[i].verdict == CiWaiting && !calls[i].refused)
    && |calls| <= polls
    && (|calls| < polls ==> calls != [] && (calls[|calls| - 1].verdict != CiWaiting || calls[|calls| - 1].refused))
  }

  predicate IsWaiting(calls: seq<Call>, commit: Commit) {
    forall i :: 0 <= i < |calls| ==> calls[i].Turn? && calls[i] == Turn(commit, CiWaiting, false)
  }

  /** One more turn, which either ends the watch or waits as well. */
  lemma NextTurn(calls: seq<Call>, commit: Commit, polls: nat, verdict: Verdict, refused: bool)
    requires IsWaiting(calls, commit) && |calls| < polls
    ensures var all := calls + [Turn(commit, verdict, refused)];
      && (Succeeded(all) <==> verdict == CiPassed)
      && if verdict == CiWaiting && !refused then IsWaiting(all, commit) else IsWatch(all, commit, polls)
  {
  }

  /** Main, CI for HEAD, the tag, release-cd: each is begun exactly when the one before it succeeded. */
  predicate IsPublication(main: seq<Call>, ci: seq<Call>, tag: seq<Call>, start: seq<Call>,
                          version: Version, head: Commit, polls: nat) {
    && IsPush(main, MainRef)
    && (if Succeeded(main) then IsWatch(ci, head, polls) else ci == [])
    && (if Succeeded(ci) then IsPush(tag, TagRef(version)) else tag == [])
    && (if Succeeded(tag) then |start| == 1 && start[0].Start? && start[0].version == version else start == [])
  }

  /** A gated cycle enters nothing, and a dry run publishes exactly what it can resume. */
  lemma GatedEntersNothing(answers: Answers, view: View, dryRun: bool)
    ensures Skips(answers, view) ==> !EntersPublication(answers, view, dryRun) && !EntersRecovery(answers, view)
    ensures EntersPublication(answers, view, true) <==> Resumes(answers, view)
    ensures !(EntersPublication(answers, view, dryRun) && EntersRecovery(answers, view))
  {
  }

  /** That version is entered, or nothing. */
  predicate Enters(before: seq<Version>, after: seq<Version>, selected: Option<Version>, entered: bool) {
    if entered then selected.Some? && after == before + [selected.value] else after == before
  }

  /** What was called in between is one publication of that version at that HEAD. */
  ghost predicate Publishes(before: seq<Call>, after: seq<Call>, version: Version, head: Commit, polls: nat) {
    exists main, ci, tag, start ::
      IsPublication(main, ci, tag, start, version, head, polls) && after == before + main + ci + tag + start
  }

  /** What was started in between is one recovery of that version. */
  ghost predicate Recovers(before: seq<Action>, after: seq<Action>, version: Version, aid: Aid) {
    exists attempts: nat :: IsRecovery(before, after, version, aid, attempts)
  }

  predicate IsRecovery(before: seq<Action>, after: seq<Action>, version: Version, aid: Aid, attempts: nat) {
    var released := aid.ReachesRelease() && aid.writing;
    after == before + Recovery(version, attempts, released) && MayRecover(aid.seen, attempts, released)
  }

  lemma RecoversBy(before: seq<Action>, after: seq<Action>, version: Version, aid: Aid, attempts: nat, released: bool)
    requires after == before + Recovery(version, attempts, released) && MayRecover(aid.seen, attempts, released)
    requires released == (aid.ReachesRelease() && aid.writing)
    ensures Recovers(before, after, version, aid)
  {
    assert IsRecovery(before, after, version, aid, attempts);
  }

  /** The listed runs that exist, in the order listed. */
  function Listing(runs: map<nat, CiRun>, ids: seq<nat>): seq<CiRun> {
    if ids == [] then []
    else (if ids[0] in runs then [runs[ids[0]]] else []) + Listing(runs, ids[1..])
  }

  /** The dictionary over the listed runs of a commit: of several runs of one workflow the last listed stays. */
  function MatchedRuns(listing: seq<CiRun>, head: Commit): map<Workflow, CiRun> {
    if listing == [] then map[]
    else
      var before, last := MatchedRuns(listing[..|listing| - 1], head), listing[|listing| - 1];
      if last.head == head && last.name in PUSH_CI_WORKFLOWS then before[last.name := last] else before
  }

  /** Every listed run that exists is there, in its place among the others. */
  lemma {:induction false} ListingExactly(runs: map<nat, CiRun>, before: seq<nat>, id: nat, later: seq<nat>)
    ensures Listing(runs, before + [id] + later) ==
      Listing(runs, before) + (if id in runs then [runs[id]] else []) + Listing(runs, later)
  {
    if before == [] {
      assert before + [id] + later == [id] + later;
    } else {
      ListingExactly(runs, before[1..], id, later);
      assert (before + [id] + later)[1..] == before[1..] + [id] + later;
    }
  }

  lemma {:induction false} ListedRunsExist(runs: map<nat, CiRun>, ids: seq<nat>)
    ensures forall run <- Listing(runs, ids) :: exists id :: id in runs && runs[id] == run
  {
    if ids != [] {
      ListedRunsExist(runs, ids[1..]);
    }
  }

  /** Where the last listed run of a workflow and commit stands, or -1. */
  function LastListed(listing: seq<CiRun>, head: Commit, name: Workflow): (i: int)
    ensures -1 <= i < |listing|
    ensures i >= 0 ==> listing[i].head == head && listing[i].name == name
    ensures forall j :: i < j < |listing| ==> !(listing[j].head == head && listing[j].name == name)
  {
    if listing == [] then -1
    else
      var n := |listing| - 1;
      if listing[n].head == head && listing[n].name == name then n else LastListed(listing[..n], head, name)
  }

  /** A workflow is matched exactly by the last run of that workflow and commit in the listing. */
  lemma {:induction false} MatchedIsLastListed(listing: seq<CiRun>, head: Commit, name: Workflow)
    ensures var i, matched := LastListed(listing, head, name), MatchedRuns(listing, head);
      && (name in matched <==> name in PUSH_CI_WORKFLOWS && i >= 0)
      && (name in matched ==> matched[name] == listing[i])
  {
    if listing != [] {
      MatchedIsLastListed(listing[..|listing| - 1], head, name);
    }
  }

  predicate AllPassed(matched: map<Workflow, CiRun>) {
    forall name <- PUSH_CI_WORKFLOWS :: name in matched && matched[name].Passed()
  }

  datatype Verdict = CiFailed | CiPassed | CiWaiting

  predicate AnyFailed(matched: map<Workflow, CiRun>) {
    exists name :: name in matched && IsFailure(matched[name].conclusion)
  }

  /** What one probe concludes: a failed run counts first. */
  function VerdictOf(matched: map<Workflow, CiRun>): Verdict {
    if AnyFailed(matched) then CiFailed else if AllPassed(matched) then CiPassed else CiWaiting
  }

  /** Five conclusions fail at once; passing takes all ten workflows, each completed with success. */
  lemma VerdictExactly(matched: map<Workflow, CiRun>)
    ensures VerdictOf(matched) == CiFailed <==>
      exists name :: name in matched &&
        matched[name].conclusion in {ActionRequired, Cancelled, Failure, StartupFailure, TimedOut}
    ensures VerdictOf(matched) == CiPassed ==> forall name <- PUSH_CI_WORKFLOWS ::
      name in matched && matched[name].completed && matched[name].conclusion == Success
    ensures VerdictOf(matched) != CiFailed && (forall name <- PUSH_CI_WORKFLOWS ::
        name in matched && matched[name].completed && matched[name].conclusion == Success)
      ==> VerdictOf(matched) == CiPassed
  {
  }

  // ----- The newest run of a workflow is the first listed -----

  /** The dictionary that keeps the first listed run of each workflow. */
  function FirstRuns(listing: seq<CiRun>, head: Commit): map<Workflow, CiRun> {
    if listing == [] then map[]
    else
      var later := FirstRuns(listing[1..], head);
      if IsRun(listing[0], head) then later[listing[0].name := listing[0]] else later
  }

  predicate IsRun(run: CiRun, head: Commit) {
    run.head == head && run.name in PUSH_CI_WORKFLOWS
  }

  lemma {:induction false} FirstListedRun(listing: seq<CiRun>, head: Commit, name: Workflow) returns (i: nat)
    requires exists j :: 0 <= j < |listing| && IsRun(listing[j], head) && listing[j].name == name
    ensures i < |listing| && IsRun(listing[i], head) && listing[i].name == name
    ensures name in FirstRuns(listing, head) && FirstRuns(listing, head)[name] == listing[i]
    ensures forall j :: 0 <= j < i ==> !(IsRun(listing[j], head) && listing[j].name == name)
  {
    if IsRun(listing[0], head) && listing[0].name == name {
      i := 0;
    } else {
      var j :| 0 <= j < |listing| && IsRun(listing[j], head) && listing[j].name == name;
      assert listing[1..][j - 1] == listing[j];
      var k := FirstListedRun(listing[1..], head, name);
      i := k + 1;
      assert forall l :: 1 <= l < |listing| ==> listing[l] == listing[1..][l - 1];
    }
  }

  lemma {:induction false} FirstRunsAreRuns(listing: seq<CiRun>, head: Commit, name: Workflow)
    requires name in FirstRuns(listing, head)
    ensures exists j :: 0 <= j < |listing| && IsRun(listing[j], head) && listing[j].name == name
  {
    if !(IsRun(listing[0], head) && listing[0].name == name) {
      FirstRunsAreRuns(listing[1..], head, name);
      var j :| 0 <= j < |listing| - 1 && IsRun(listing[1..][j], head) && listing[1..][j].name == name;
      assert listing[j + 1] == listing[1..][j];
    }
  }

  /** No workflow is listed twice for the commit. */
  predicate ListedOnce(listing: seq<CiRun>, head: Commit) {
    forall i, j :: 0 <= i < j < |listing| && IsRun(listing[i], head) && IsRun(listing[j], head) ==>
      listing[i].name != listing[j].name
  }

  lemma {:induction false} OnceMeansSame(listing: seq<CiRun>, head: Commit)
    requires ListedOnce(listing, head)
    ensures MatchedRuns(listing, head) == FirstRuns(listing, head)
  {
    var last, first := MatchedRuns(listing, head), FirstRuns(listing, head);
    forall name ensures name in last <==> name in first
      ensures name in last && name in first ==> last[name] == first[name]
    {
      MatchedIsLastListed(listing, head, name);
      var l := LastListed(listing, head, name);
      if name in first {
        FirstRunsAreRuns(listing, head, name);
      }
      if name in last || name in first {
        assert l >= 0 && IsRun(listing[l], head);
        var i := FirstListedRun(listing, head, name);
      }
    }
  }

  /** The same runs with other outcomes. */
  function Relabelled(listing: seq<CiRun>, failing: int): (r: seq<CiRun>)
    ensures |r| == |listing|
    ensures forall i :: 0 <= i < |listing| ==> r[i].head == listing[i].head && r[i].name == listing[i].name
    ensures forall i :: 0 <= i < |listing| ==>
      r[i].completed && r[i].conclusion == (if i == failing then Failure else Success)
  {
    seq(|listing|, i requires 0 <= i < |listing| =>
      CiRun(listing[i].name, listing[i].head, true, if i == failing then Failure else Success))
  }

  /** The same workflows and commits in the same places. */
  predicate SameShape(a: seq<CiRun>, b: seq<CiRun>) {
    |a| == |b| && forall i :: 0 <= i < |a| ==> a[i].head == b[i].head && a[i].name == b[i].name
  }

  /** With the first listed run of a workflow failed and all others passed, only the first-listed view sees it. */
  lemma {:induction false} TwiceMeansDifferent(listing: seq<CiRun>, head: Commit, x: nat, y: nat)
    requires x < y < |listing| && IsRun(listing[x], head) && IsRun(listing[y], head)
    requires listing[x].name == listing[y].name
    requires forall j :: 0 <= j < x ==> !(IsRun(listing[j], head) && listing[j].name == listing[x].name)
    ensures var r := Relabelled(listing, x);
      VerdictOf(FirstRuns(r, head)) == CiFailed && VerdictOf(MatchedRuns(r, head)) != CiFailed
  {
    var r, name := Relabelled(listing, x), listing[x].name;
    var i := FirstListedRun(r, head, name);
    assert i == x;
    assert IsFailure(FirstRuns(r, head)[name].conclusion);
    var matched := MatchedRuns(r, head);
    forall other | other in matched ensures matched[other].conclusion == Success {
      MatchedIsLastListed(r, head, other);
      assert LastListed(r, head, other) != x;
    }
  }

  /**
   * The kept last-listed runs and the first-listed ones give the same verdict, whatever the outcomes, exactly when
   * no workflow is listed twice for the commit.
   */
  lemma {:induction false} VerdictsAgreeExactly(listing: seq<CiRun>, head: Commit)
    ensures (forall other: seq<CiRun> :: SameShape(listing, other) ==>
              VerdictOf(MatchedRuns(other, head)) == VerdictOf(FirstRuns(other, head)))
       <==> ListedOnce(listing, head)
  {
    if ListedOnce(listing, head) {
      forall other: seq<CiRun> | SameShape(listing, other)
        ensures VerdictOf(MatchedRuns(other, head)) == VerdictOf(FirstRuns(other, head))
      {
        OnceMeansSame(other, head);
      }
    } else {
      var x, y :| 0 <= x < y < |listing| && IsRun(listing[x], head) && IsRun(listing[y], head)
                  && listing[x].name == listing[y].name;
      var i := FirstListedRun(listing, head, listing[x].name);
      TwiceMeansDifferent(listing, head, i, y);
      assert SameShape(listing, Relabelled(listing, i));
    }
  }

  /** Later listed runs go over an earlier one. */
  lemma {:induction false} MatchedBehind(newer: CiRun, listing: seq<CiRun>, head: Commit)
    ensures MatchedRuns([newer] + listing, head) == MatchedRuns([newer], head) + MatchedRuns(listing, head)
  {
    if listing == [] {
      assert [newer] + listing == [newer];
    } else {
      MatchedBehind(newer, listing[..|listing| - 1], head);
      assert ([newer] + listing)[..|listing|] == [newer] + listing[..|listing| - 1];
    }
  }

  /** A run listed in front of a listing that passes is not seen. */
  lemma {:induction false} NewerRunIgnored(newer: CiRun, listing: seq<CiRun>, head: Commit)
    requires AllPassed(MatchedRuns(listing, head)) && newer.name in PUSH_CI_WORKFLOWS
    ensures VerdictOf(MatchedRuns([newer] + listing, head)) == VerdictOf(MatchedRuns(listing, head))
    ensures AllPassed(MatchedRuns([newer] + listing, head))
  {
    MatchedBehind(newer, listing, head);
    assert [newer][..0] == [];
    assert MatchedRuns([newer], head).Keys <= {newer.name} <= MatchedRuns(listing, head).Keys;
    assert MatchedRuns([newer] + listing, head) == MatchedRuns(listing, head);
  }

  lemma {:induction false} PassedListing(head: Commit, names: set<Workflow>) returns (listing: seq<CiRun>)
    requires names <= PUSH_CI_WORKFLOWS
    ensures forall i :: 0 <= i < |listing| ==> listing[i].Passed() && listing[i].head == head
    ensures forall name <- names :: exists i :: 0 <= i < |listing| && listing[i].name == name
    decreases |names|
  {
    listing := [];
    if names != {} {
      var name :| name in names;
      var others := PassedListing(head, names - {name});
      listing := others + [CiRun(name, head, true, Success)];
      forall n | n in names ensures exists i :: 0 <= i < |listing| && listing[i].name == n {
        if n == name {
          assert listing[|others|].name == n;
        } else {
          assert n in names - {name};
          var i :| 0 <= i < |others| && others[i].name == n;
          assert listing[i].name == n;
        }
      }
    }
  }

  /** A listing whose first, newest run of `ci` failed, and which passes. */
  lemma {:induction false} FailedRunPasses(head: Commit) returns (listing: seq<CiRun>)
    ensures listing != [] && listing[0] == CiRun("ci", head, true, Failure)
    ensures VerdictOf(MatchedRuns(listing, head)) == CiPassed && VerdictOf(FirstRuns(listing, head)) == CiFailed
  {
    var older := PassedListing(head, PUSH_CI_WORKFLOWS);
    var matched := MatchedRuns(older, head);
    forall name ensures name in PUSH_CI_WORKFLOWS ==> name in matched
      ensures name in matched ==> matched[name].Passed()
    {
      MatchedIsLastListed(older, head, name);
    }
    var newer := CiRun("ci", head, true, Failure);
    listing := [newer] + older;
    NewerRunIgnored(newer, older, head);
    assert FirstRuns(listing, head)["ci"] == newer;
  }

  /** When the probe sees every workflow passed, every workflow has passed for that commit. */
  lemma PassedMeansGreen(w: Remote, ids: seq<nat>, head: Commit)
    requires RunsRecorded(w) && AllPassed(MatchedRuns(Listing(w.runs, ids), head))
    ensures AllGreen(w, head)
  {
    var listing := Listing(w.runs, ids);
    forall name | name in PUSH_CI_WORKFLOWS ensures (head, name) in w.passed {
      MatchedIsLastListed(listing, head, name);
      ListedRunsExist(w.runs, ids);
      var run := MatchedRuns(listing, head)[name];
      assert run in listing;
      var id :| id in w.runs && w.runs[id] == run;
    }
  }

  class Train {
    // The local clone: HEAD of main, stable tags, and the tracking branch origin/main.
    var head: Commit
    var localTags: map<Version, TagObject>
    var originMain: Commit
    var remote: Remote
    ghost var worlds: seq<Remote>
    ghost var steps: seq<Step>
    /** HEAD at each step. */
    ghost var heads: seq<Commit>
    /** The versions for which `push_and_dispatch` was entered, and those for which `recover_existing_release` was. */
    ghost var publishing: seq<Version>
    ghost var recovering: seq<Version>
    /** What recoveries started. */
    ghost var actions: seq<Action>
    /** The pushes, their checks, the turns of watching CI and the dispatches, with how they went. */
    ghost var calls: seq<Call>

    /** The steps are a trace up to the remote, and each dispatch names the HEAD that the train had. */
    ghost predicate Valid()
      reads this
    {
      && IsTrace(worlds, steps) && worlds[|steps|] == remote && Sound(remote)
      && |heads| == |steps| && forall i :: 0 <= i < |steps| && steps[i].Dispatched? ==> steps[i].head == heads[i]
    }

    twostate predicate Grew()
      reads this
    {
      old(worlds) <= worlds && old(steps) <= steps && old(heads) <= heads
    }

    /** The train entered no recovery, which alone starts other workflows outside `push_and_dispatch`. */
    twostate predicate NoRecovery()
      reads this
    {
      recovering == old(recovering) && actions == old(actions)
    }

    /** The train itself put no ref update on its way and did not start release-cd. */
    twostate predicate Quietly()
      reads this
    {
      Grew() && forall i :: |old(steps)| <= i < |steps| ==> !steps[i].Sent? && !steps[i].Dispatched?
    }

    constructor (head: Commit, localTags: map<Version, TagObject>, originMain: Commit, remote: Remote)
      requires remote.inFlight == {} && RunsRecorded(remote)
      ensures Valid() && worlds == [remote] && steps == [] && this.remote == remote
    {
      this.head, this.localTags, this.originMain, this.remote := head, localTags, originMain, remote;
      worlds, steps, heads, publishing, recovering, actions, calls := [remote], [], [], [], [], [], [];
    }

    /** One step, recorded. */
    method Move(step: Step, next: Remote)
      requires Valid() && StepOk(remote, step, next) && (step.Dispatched? ==> step.head == head)
      modifies `remote, `worlds, `steps, `heads
      ensures Valid() && remote == next
      ensures worlds == old(worlds) + [next] && steps == old(steps) + [step] && heads == old(heads) + [head]
    {
      StepKeeps(remote, step, next);
      remote := next;
      worlds, steps, heads := worlds + [next], steps + [step], heads + [head];
    }

    /** What others do in the meantime, and what becomes of updates on their way. */
    method Meanwhile()
      requires Valid()
      modifies `remote, `worlds, `steps, `heads
      ensures Valid() && Quietly() && Later(old(remote), remote)
    {
      var rounds := Answer<nat>();
      LaterRefl(remote);
      while rounds > 0
        invariant Valid() && Quietly() && Later(old(remote), remote)
        decreases rounds
      {
        var after := Answer<Remote>();
        var update := Answer<Update>();
        var carriedOut := Answer<bool>();
        ghost var before := remote;
        if MayFollow(remote, after) {
          Move(Others(after), after);
        } else if carriedOut && CanArrive(remote, update) {
          Move(Arrived(update), CarriedOut(remote, update));
        } else {
          Move(Lost(update), remote.(inFlight := remote.inFlight - {update}));
        }
        StepKeeps(before, steps[|steps| - 1], remote);
        LaterTransitive(old(remote), before, remote);
        rounds := rounds - 1;
      }
    }

    // ----- Pushing -----

    /** An update put on its way, and no other, and no dispatch. */
    twostate predicate Sends(update: Update)
      reads this
    {
      && Grew() && (exists i :: |old(steps)| <= i < |steps| && steps[i] == Sent(update))
      && forall i :: |old(steps)| <= i < |steps| ==>
           !steps[i].Dispatched? && (steps[i].Sent? ==> steps[i] == Sent(update))
    }

    /** The same, counted from a place in the run. */
    ghost predicate SentSince(update: Update, from: nat)
      reads this
    {
      exists i :: from <= i < |steps| && steps[i] == Sent(update)
    }

    /** The server's answer to an update that was sent: it may be lost, with the update still on its way. */
    method Settle(update: Update) returns (ok: bool)
      requires Valid() && update in remote.inFlight
      modifies `remote, `worlds, `steps, `heads
      ensures Valid() && Quietly() && Later(old(remote), remote)
      ensures ok && update.MainUpdate? ==> remote.main == update.next
      ensures ok && update.TagUpdate? ==> update.version in remote.tags && remote.tags[update.version] == update.tag
      ensures ok ==> CanArrive(old(remote), update)
    {
      var answered := Answer<bool>();
      if !answered {
        LaterRefl(remote);
        return false;
      }
      ghost var before := remote;
      if CanArrive(remote, update) {
        Move(Arrived(update), CarriedOut(remote, update));
        ok := Answer<bool>();
      } else {
        Move(Lost(update), remote.(inFlight := remote.inFlight - {update}));
        ok := false;
      }
      StepKeeps(before, steps[|steps| - 1], remote);
    }

    /** Sends an update. The answer may be lost; an update the server has not carried out yet stays on its way. */
    method Transmit(update: Update) returns (ok: bool)
      requires Valid() && MaySend(remote, update)
      modifies `remote, `worlds, `steps, `heads
      ensures Valid() && Grew() && Later(old(remote), remote)
      ensures ok && update.MainUpdate? ==> remote.main == update.next
      ensures ok && update.TagUpdate? ==> update.version in remote.tags && remote.tags[update.version] == update.tag
      ensures Sends(update)
    {
      Meanwhile();
      if update.TagUpdate? {
        TestedStays(old(remote), remote, update.tag.commit);
      }
      ghost var sent := |steps|;
      Move(Sent(update), remote.(inFlight := remote.inFlight + {update}));
      ghost var before := remote;
      ok := Settle(update);
      LaterTransitive(old(remote), before, remote);
      assert steps[sent] == Sent(update);
    }

    /** The refs a push may be asked for: main, or a tag that, if it exists, names a tested commit. */
    predicate MayPush(ref: Ref)
      reads this
    {
      ref.TagRef? && ref.version in localTags ==> Tested(remote, localTags[ref.version].commit)
    }

    /** What a push has to send to a remote in that state: main if it moves forward, a tag of a new name. */
    function ToSend(ref: Ref, seen: Remote): Option<Update>
      reads this
    {
      match ref
      case MainRef =>
        if seen.main != head && IsAncestor(seen.main, head) then Some(MainUpdate(seen.main, head)) else None
      case TagRef(version) =>
        if version in localTags && version !in seen.tags then Some(TagUpdate(version, localTags[version])) else None
    }

    /** The remote ref is what the clone has. */
    predicate IsUpToDate(ref: Ref, seen: Remote)
      reads this
    {
      match ref
      case MainRef => seen.main == head
      case TagRef(version) =>
        version in localTags && version in seen.tags && seen.tags[version] == localTags[version]
    }

    /** What a push that reports success has shown. */
    predicate Pushed(ref: Ref)
      reads this
    {
      match ref
      case MainRef => IsAncestor(head, remote.main)
      case TagRef(version) => version in remote.tags
    }

    twostate lemma MayPushStays(ref: Ref)
      requires old(MayPush(ref)) && Later(old(remote), remote) && localTags == old(localTags)
      ensures MayPush(ref)
    {
      if ref.TagRef? && ref.version in localTags {
        TestedStays(old(remote), remote, localTags[ref.version].commit);
      }
    }

    /**
     * `attempt_git_push_once`: connect, see the remote's refs, and send what is a fast-forward or new. Connected, it
     * sends that update exactly when there is one, and reports success without one exactly when all is up to date.
     */
    method AttemptPushOnce(ref: Ref, connected: bool) returns (ok: bool, ghost seen: Remote)
      requires Valid() && MayPush(ref)
      modifies `remote, `worlds, `steps, `heads, `calls
      ensures Valid() && Grew() && Later(old(remote), seen) && Later(seen, remote)
      ensures calls == old(calls) + [Attempt(ref, ok)]
      ensures ok ==> connected && Pushed(ref)
      ensures ok && ref.TagRef? ==> ref.version in localTags && remote.tags[ref.version] == localTags[ref.version]
      ensures connected && ref.MainRef? && seen.main != head && IsAncestor(seen.main, head) ==>
        SentSince(MainUpdate(seen.main, head), |old(steps)|)
      ensures connected && ref.TagRef? && ref.version in localTags && ref.version !in seen.tags ==>
        SentSince(TagUpdate(ref.version, localTags[ref.version]), |old(steps)|)
      ensures !connected || ToSend(ref, seen).None? ==> Quietly()
      ensures ToSend(ref, seen).None? ==> (ok <==> connected && IsUpToDate(ref, seen))
    {
      Meanwhile();
      MayPushStays(ref);
      seen := remote;
      LaterRefl(seen);
      ok := connected && IsUpToDate(ref, remote);
      if connected && ToSend(ref, remote).Some? {
        ok := Transmit(ToSend(ref, remote).value);
      }
      calls := calls + [Attempt(ref, ok)];
    }

    /** `git_push_remote_converged`: for a tag, that the remote has one of that name, whatever it names. */
    method RemoteConverged(ref: Ref, answered: bool) returns (converged: bool)
      requires Valid()
      modifies `remote, `worlds, `steps, `heads, `calls
      ensures Valid() && Quietly() && Later(old(remote), remote)
      ensures calls == old(calls) + [Check(ref, converged)]
      ensures converged <==> answered && if ref.MainRef? then remote.main == head else ref.version in remote.tags
      ensures converged ==> Pushed(ref)
    {
      Meanwhile();
      converged := false;
      if answered {
        match ref {
          case MainRef => converged := remote.main == head;
          case TagRef(version) => converged := version in remote.tags;
        }
      }
      calls := calls + [Check(ref, converged)];
    }

    /** One attempt; if it fails, the remote is checked. */
    method AttemptAndCheck(ref: Ref, ghost before: seq<Call>) returns (ok: bool, ghost made: seq<Call>)
      requires Valid() && MayPush(ref) && HasFailed(before, ref) && |before| < 7 && |before| % 2 == 1
      modifies `remote, `worlds, `steps, `heads, `calls
      ensures Valid() && Grew() && Later(old(remote), remote) && MayPush(ref)
      ensures calls == old(calls) + made && (ok <==> Succeeded(before + made)) && (ok ==> Pushed(ref))
      ensures if ok then IsPush(before + made, ref) else HasFailed(before + made, ref) && |made| == 2
    {
      var connected := Answer<bool>();
      ghost var seen;
      ok, seen := AttemptPushOnce(ref, connected);
      LaterTransitive(old(remote), seen, remote);
      made := [Attempt(ref, ok)];
      NextCall(before, ref, Attempt(ref, ok));
      if !ok {
        var answered := Answer<bool>();
        seen := remote;
        ok := RemoteConverged(ref, answered);
        LaterTransitive(old(remote), seen, remote);
        made := made + [Check(ref, ok)];
        NextCall(before + [Attempt(ref, false)], ref, Check(ref, ok));
        assert before + made == before + [Attempt(ref, false)] + [Check(ref, ok)];
      }
      MayPushStays(ref);
    }

    /** `run_git_push`: up to three attempts, each failure excused by a converged remote; `false` is the exception. */
    method RunGitPush(ref: Ref) returns (ok: bool, ghost made: seq<Call>)
      requires Valid() && MayPush(ref)
      modifies `remote, `worlds, `steps, `heads, `calls
      ensures Valid() && Grew() && Later(old(remote), remote)
      ensures calls == old(calls) + made && IsPush(made, ref) && (ok <==> Succeeded(made))
      ensures ok ==> Pushed(ref)
    {
      var answered := Answer<bool>();
      ok := RemoteConverged(ref, answered);
      made := [Check(ref, ok)];
      if ok {
        return;
      }
      MayPushStays(ref);
      for attempt := 1 to REMOTE_PUSH_ATTEMPTS + 1
        invariant Valid() && Grew() && Later(old(remote), remote) && MayPush(ref)
        invariant calls == old(calls) + made && HasFailed(made, ref) && |made| == 2 * attempt - 1
      {
        ghost var before, further := remote, [];
        ok, further := AttemptAndCheck(ref, made);
        LaterTransitive(old(remote), before, remote);
        made := made + further;
        if ok {
          return;
        }
      }
      AllFailed(made, ref);
      ok := false;
    }

    // ----- Waiting for CI -----

    /** `wait_for_push_ci`: polls the list of runs until all passed, one failed, or time is up. */
    method WaitForPushCi(commit: Commit, polls: nat) returns (ok: bool, ghost made: seq<Call>)
      requires Valid()
      modifies `remote, `worlds, `steps, `heads, `calls
      ensures Valid() && Quietly() && Later(old(remote), remote)
      ensures calls == old(calls) + made && IsWatch(made, commit, polls) && (ok <==> Succeeded(made))
      ensures ok ==> AllGreen(remote, commit)
    {
      var firstMissingAt: Option<int> := None;
      var dispatched: set<Workflow> := {};
      LaterRefl(remote);
      made := [];
      for poll := 0 to polls
        invariant Valid() && Quietly() && Later(old(remote), remote)
        invariant calls == old(calls) + made && |made| == poll
        invariant IsWaiting(made, commit)
      {
        ghost var before := remote;
        Meanwhile();
        LaterTransitive(old(remote), before, remote);
        var listed := Answer<Option<seq<nat>>>();
        var verdict, refused := CiWaiting, false;
        if listed.Some? {
          var matched := MatchedRuns(Listing(remote.runs, listed.value), commit);
          verdict := VerdictOf(matched);
          var now := Answer<int>();
          var missing := PUSH_CI_WORKFLOWS - matched.Keys;
          if verdict == CiWaiting && missing != {} && firstMissingAt.None? {
            firstMissingAt := Some(now);
          }
          if verdict == CiWaiting && missing != {} && now - firstMissingAt.value >= 60 && !(missing <= dispatched) {
            var accepted := Answer<bool>();
            refused := !accepted;
            dispatched := dispatched + missing;
          }
          if verdict == CiPassed {
            PassedMeansGreen(remote, listed.value, commit);
          }
        }
        NextTurn(made, commit, polls, verdict, refused);
        calls, made := calls + [Turn(commit, verdict, refused)], made + [Turn(commit, verdict, refused)];
        if verdict != CiWaiting || refused {
          return verdict == CiPassed, made;
        }
      }
      return false, made;
    }

    // ----- Publishing -----

    /** The newest step is a dispatch of that version at HEAD. */
    twostate predicate EndsWithDispatch(version: Version)
      reads this
    {
      |old(steps)| < |steps| && steps[|steps| - 1] == Dispatched(version, head)
    }

    /** `gh workflow run release-cd.yml`, which is reached only when main, CI and the tag push reported success. */
    method Dispatch(version: Version, accepted: bool) returns (ok: bool)
      requires Valid() && version in remote.tags && Tested(remote, head)
      modifies `remote, `worlds, `steps, `heads, `calls
      ensures Valid() && Grew() && Later(old(remote), remote)
      ensures calls == old(calls) + [Start(version, ok)]
      ensures ok ==> accepted
      ensures if accepted then EndsWithDispatch(version) else Quietly()
    {
      Meanwhile();
      ok := false;
      if accepted {
        TestedStays(old(remote), remote, head);
        Move(Dispatched(version, head), remote);
        ok := Answer<bool>();
      }
      calls := calls + [Start(version, ok)];
    }

    /**
     * `push_and_dispatch`: main, then CI for HEAD, then the tag, then release-cd, each exactly when the one before it
     * succeeded. The tag names HEAD, so by the time it is sent its commit is on remote main and has passed every
     * workflow.
     */
    method PushAndDispatch(version: Version, wait: bool, polls: nat)
      returns (ok: bool, ghost main: seq<Call>, ghost ci: seq<Call>, ghost tag: seq<Call>, ghost start: seq<Call>)
      requires Valid() && version in localTags && localTags[version].commit == head
      modifies `remote, `worlds, `steps, `heads, `publishing, `calls
      ensures publishing == old(publishing) + [version]
      ensures calls == old(calls) + main + ci + tag + start
      ensures IsPublication(main, ci, tag, start, version, head, polls)
      ensures (ok ==> Succeeded(start)) && (Succeeded(start) && !wait ==> ok)
      ensures Valid() && Grew()
      ensures ok ==> version in remote.tags && Tested(remote, head) && EndsWithDispatch(version)
      ensures Publishes(old(calls), calls, version, head, polls)
    {
      publishing := publishing + [version];
      main, ci, tag, start := [], [], [], [];
      ok, main := RunGitPush(MainRef);
      if !ok {
        return;
      }
      ghost var pushed := remote;
      ok, ci := WaitForPushCi(head, polls);
      if !ok {
        return;
      }
      AncestorTransitive(head, pushed.main, remote.main);
      ok, tag, start := PushTagAndDispatch(version);
      if ok && wait {
        // Watching release-cd may raise; a failed signing or provenance run is only reported.
        ok := Answer<bool>();
      }
    }

    /** Its end, once HEAD is on the remote main and has passed. */
    method PushTagAndDispatch(version: Version) returns (ok: bool, ghost tag: seq<Call>, ghost start: seq<Call>)
      requires Valid() && version in localTags && localTags[version].commit == head && Tested(remote, head)
      modifies `remote, `worlds, `steps, `heads, `calls
      ensures Valid() && Grew() && calls == old(calls) + tag + start && IsPush(tag, TagRef(version))
      ensures if Succeeded(tag) then start == [Start(version, ok)] else start == [] && !ok
      ensures ok ==> version in remote.tags && Tested(remote, head) && EndsWithDispatch(version)
    {
      start := [];
      ok, tag := RunGitPush(TagRef(version));
      if !ok {
        return;
      }
      TestedStays(old(remote), remote, head);
      ghost var tagged := remote;
      var accepted := Answer<bool>();
      ok := Dispatch(version, accepted);
      start := [Start(version, ok)];
      TestedStays(tagged, remote, head);
    }

    predicate LocalTagPointsToHead(version: Version)
      reads this
    {
      version in localTags && localTags[version].commit == head
    }

    method ResumeTaggedReleasePublish(version: Version, wait: bool, polls: nat) returns (ok: bool)
      requires Valid()
      modifies `remote, `worlds, `steps, `heads, `publishing, `calls
      ensures publishing == old(publishing) + if LocalTagPointsToHead(version) then [version] else []
      ensures if LocalTagPointsToHead(version) then Publishes(old(calls), calls, version, head, polls)
              else calls == old(calls)
      ensures Valid() && Grew()
      ensures ok ==> LocalTagPointsToHead(version) && version in remote.tags && Tested(remote, head)
      ensures ok ==> EndsWithDispatch(version)
    {
      if version !in localTags || !LocalTagPointsToHead(version) {
        return false;
      }
      ghost var main, ci, tag, start;
      ok, main, ci, tag, start := PushAndDispatch(version, wait, polls);
    }

    /** The three attempts to publish on PyPI; each may fail before or after publish-python.yml was started. */
    method RecoverPython(version: Version, aid: Aid) returns (recovered: bool, ghost attempts: nat)
      requires Valid()
      modifies `remote, `worlds, `steps, `heads, `actions
      ensures Valid() && Quietly() && attempts <= 3 && (recovered ==> attempts > 0)
      ensures actions == old(actions) + Recovery(version, attempts, false)
      ensures recovered <==> aid.PublishesPython()
      ensures !recovered ==> attempts == aid.Started(3)
    {
      recovered, attempts := false, 0;
      for attempt := 1 to 4
        invariant Valid() && Quietly() && attempts < attempt && !recovered
        invariant actions == old(actions) + Recovery(version, attempts, false)
        invariant attempts == aid.Started(attempt - 1)
        invariant forall n :: 1 <= n < attempt ==> !(aid.starts(n) && aid.publishes(n))
      {
        Meanwhile();
        if aid.starts(attempt) {
          actions, attempts := actions + [PublishPython(version)], attempts + 1;
          recovered := aid.publishes(attempt);
        }
        if recovered {
          return;
        }
      }
    }

    /**
     * `recover_existing_release`: for a release seen incomplete, starts publish-python.yml up to three times if PyPI
     * lacks it, and then writes the GitHub release of the existing tag. It moves no ref and does not start release-cd.
     */
    method RecoverExistingRelease(version: Version, aid: Aid)
      returns (ok: bool, ghost attempts: nat, ghost released: bool)
      requires Valid()
      modifies `remote, `worlds, `steps, `heads, `recovering, `actions
      ensures Valid() && Quietly() && recovering == old(recovering) + [version]
      ensures actions == old(actions) + Recovery(version, attempts, released)
      ensures MayRecover(aid.seen, attempts, released)
      ensures released <==> aid.ReachesRelease() && aid.writing
      ensures ok <==> (!aid.seen.unknown &&
        (aid.seen.complete || (released && aid.written && !aid.final.unknown && aid.final.complete)))
    {
      recovering := recovering + [version];
      ok, attempts, released := false, 0, false;
      if aid.seen.unknown || aid.seen.complete || !aid.seen.npmComplete {
        ok := !aid.seen.unknown && aid.seen.complete;
        return;
      }
      if !aid.seen.pythonVisible {
        var recovered;
        recovered, attempts := RecoverPython(version, aid);
        if !recovered {
          return;
        }
      }
      Meanwhile();
      if !aid.writing {
        return;
      }
      actions, released := actions + [WriteRelease(version)], true;
      ok := aid.written && !aid.final.unknown && aid.final.complete;
    }

    // ----- The local clone -----

    /** `remote_tag_exists`: a failing probe answers false. */
    method RemoteTagExists(version: Version, answered: bool) returns (exists_: bool)
      requires Valid()
      modifies `remote, `worlds, `steps, `heads
      ensures Valid() && Quietly()
      ensures exists_ <==> answered && version in remote.tags
    {
      Meanwhile();
      exists_ := answered && version in remote.tags;
    }

    /** `best_effort_fetch_tags`: tags the clone already has stay as they are; a failed fetch may stop half-way. */
    method BestEffortFetchTags(gotMain: bool, gotTags: bool)
      requires Valid()
      modifies `originMain, `localTags, `remote, `worlds, `steps, `heads
      ensures Valid() && Quietly() && Later(old(remote), remote)
      ensures originMain == if gotMain then remote.main else old(originMain)
      ensures localTags == if gotTags then remote.tags + old(localTags) else old(localTags)
    {
      Meanwhile();
      if gotMain {
        originMain := remote.main;
      }
      if gotTags {
        localTags := remote.tags + localTags;
      }
    }

    /** `sync_main_with_origin`: HEAD only moves forward, to origin/main, and fails exactly if it cannot be there. */
    method SyncMainWithOrigin(merged: bool) returns (ok: bool)
      modifies `head
      ensures head == if IsAncestor(old(head), originMain) && merged then originMain else old(head)
      ensures ok <==> IsAncestor(originMain, head)
    {
      if IsAncestor(head, originMain) && IsAncestor(originMain, head) {
        AncestorsAntisymmetric(head, originMain);
      }
      if head == originMain {
        return true;
      }
      if IsAncestor(head, originMain) {
        if merged {
          head := originMain;
        }
        return merged;
      }
      ok := IsAncestor(originMain, head);
    }

    /** The greatest local stable tag. */
    method LatestStable() returns (latest: Option<Version>)
      ensures IsLatest(latest, localTags)
    {
      var rest := localTags.Keys;
      latest := None;
      while rest != {}
        invariant rest <= localTags.Keys
        invariant latest.None? ==> rest == localTags.Keys
        invariant latest.Some? ==> latest.value in localTags
        invariant latest.Some? ==> forall v :: v in localTags && v !in rest ==> !Before(latest.value, v)
        decreases |rest|
      {
        var v :| v in rest;
        rest := rest - {v};
        if latest.None? || Before(latest.value, v) {
          latest := Some(v);
        }
      }
    }

    /**
     * `reconcile_unpublished_local_stable_tag`: drops the latest local tag exactly when HEAD has moved past it. It
     * may do so though the remote has that tag, when the probe fails; but it never touches the remote.
     */
    method ReconcileUnpublishedLocalStableTag(refresh: Refresh) returns (ok: bool, latest: Option<Version>)
      requires Valid()
      modifies `localTags, `remote, `worlds, `steps, `heads
      ensures Valid() && Quietly() && IsLatest(latest, old(localTags))
      ensures latest.None? ==> ok && localTags == old(localTags)
      ensures latest.Some? ==>
        var v, tags := latest.value, old(localTags);
        var superseded := IsSuperseded(tags[v], head, refresh.probed && v in remote.tags, refresh.status);
        && localTags == (if superseded && refresh.deleted then tags - {v} else tags)
        && (ok <==> superseded ==> refresh.deleted)
    {
      ok := true;
      latest := LatestStable();
      if latest.None? {
        return;
      }
      var version := latest.value;
      var onRemote := RemoteTagExists(version, refresh.probed);
      if onRemote || LocalTagPointsToHead(version) || refresh.status.unknown || refresh.status.complete {
        return;
      }
      if !IsAncestor(localTags[version].commit, head) {
        return;
      }
      ok := refresh.deleted;
      if ok {
        localTags := localTags - {version};
      }
    }

    /** `commit_and_tag`: a new commit on HEAD, then a new tag on it; either command may fail. */
    method CommitAndTag(version: Version, committed: bool, tagged: bool) returns (ok: bool)
      modifies `head, `localTags
      ensures ok <==> committed && tagged && version !in old(localTags)
      ensures if committed then head.parents == [old(head)] else head == old(head)
      ensures if ok then LocalTagPointsToHead(version) && localTags == old(localTags)[version := localTags[version]]
              else localTags == old(localTags)
    {
      if !committed {
        return false;
      }
      var id := Answer<nat>();
      head := Commit(id, [head]);
      if !tagged || version in localTags {
        return false;
      }
      var tagId := Answer<nat>();
      localTags := localTags[version := TagObject(tagId, head)];
      return true;
    }

    // ----- One cycle -----

    /** The branch of `run_once` for a tag that exists already. */
    method PublishExistingTag(version: Version, status: Publication, aid: Aid, wait: bool, polls: nat)
      returns (ok: bool)
      requires Valid()
      modifies `remote, `worlds, `steps, `heads, `publishing, `recovering, `actions, `calls
      ensures Valid() && Grew()
      ensures publishing == old(publishing) +
        if !status.unknown && !status.complete && LocalTagPointsToHead(version) then [version] else []
      ensures recovering == old(recovering) +
        if !status.unknown && (status.complete || !LocalTagPointsToHead(version)) then [version] else []
      ensures publishing == old(publishing) ==> Quietly()
      ensures recovering == old(recovering) ==> NoRecovery()
      ensures if publishing == old(publishing) then calls == old(calls)
              else Publishes(old(calls), calls, version, head, polls)
      ensures recovering != old(recovering) ==> Recovers(old(actions), actions, version, aid)
      ensures forall v :: v in old(remote).tags ==> v in remote.tags
      ensures ok ==> Quietly() || (version in remote.tags && Tested(remote, head))
    {
      if status.unknown {
        return false;
      }
      if !status.complete && LocalTagPointsToHead(version) {
        ok := ResumeTaggedReleasePublish(version, wait, polls);
      } else {
        ghost var attempts, released;
        ok, attempts, released := RecoverExistingRelease(version, aid);
        RecoversBy(old(actions), actions, version, aid, attempts, released);
      }
      assert worlds[|old(steps)|] == old(worlds)[|old(steps)|];
      TraceLater(worlds, steps, |old(steps)|, |steps|);
    }

    /**
     * The start of `run_once`, up to the reconciliation; `false` is an exception. Refreshed, HEAD is at or ahead of
     * origin/main as fetched, and the tags are those of both sides, without the latest if that was superseded.
     */
    method RefreshClone(refresh: Refresh) returns (ok: bool, ghost fetched: Remote, ghost latest: Option<Version>)
      requires Valid()
      modifies `head, `originMain, `localTags, `remote, `worlds, `steps, `heads
      ensures Valid() && Quietly() && Later(old(remote), fetched)
      ensures !refresh.cleanOnMain ==> !ok
      ensures !refresh.cleanOnMain ==> head == old(head) && localTags == old(localTags) && originMain == old(originMain)
      ensures refresh.cleanOnMain ==> originMain == if refresh.gotMain then fetched.main else old(originMain)
      ensures head == old(head) || (refresh.merged && head == originMain && IsAncestor(old(head), head))
      ensures ok ==> IsAncestor(originMain, head)
      ensures refresh.cleanOnMain && IsAncestor(originMain, head) && refresh.deleted ==> ok
      ensures ok ==> var tags := if refresh.gotTags then fetched.tags + old(localTags) else old(localTags);
        && IsLatest(latest, tags)
        && (localTags == tags || (latest.Some? && localTags == tags - {latest.value}
             && IsSuperseded(tags[latest.value], head, false, refresh.status)))
    {
      latest, fetched := None, remote;
      LaterRefl(remote);
      if !refresh.cleanOnMain {
        return false, fetched, latest;
      }
      BestEffortFetchTags(refresh.gotMain, refresh.gotTags);
      fetched := remote;
      ok := SyncMainWithOrigin(refresh.merged);
      if ok {
        ok, latest := ReconcileUnpublishedLocalStableTag(refresh);
      }
    }

    /**
     * The end of `run_once`, for a tag that does not exist: validation, the commit, the tag, the push. Once the tag is
     * made, the train enters `push_and_dispatch` exactly when it publishes, and otherwise is done.
     */
    method PrepareTarget(version: Version, publish: bool, wait: bool, answers: Answers) returns (r: Outcome)
      requires Valid() && version !in localTags
      modifies `head, `localTags, `remote, `worlds, `steps, `heads, `publishing, `recovering, `actions, `calls
      ensures Valid() && Grew()
      ensures publishing == old(publishing) + if answers.Made() && publish then [version] else []
      ensures r == Prepared(version) <==> answers.Made() && !publish
      ensures r.Prepared? ==> r.version == version
      ensures !answers.Made() ==> r == Raised
      ensures !r.DryRun? && r != CycleSkipped
      ensures publishing == old(publishing) ==> Quietly()
      ensures if publishing == old(publishing) then calls == old(calls)
              else Publishes(old(calls), calls, version, head, answers.polls)
      ensures NoRecovery()
      ensures answers.Made() ==> LocalTagPointsToHead(version) && head.parents == [old(head)]
      ensures localTags == if answers.Made() then old(localTags)[version := localTags[version]] else old(localTags)
      ensures !answers.validated || !answers.committed ==> head == old(head)
      ensures r.Published? ==> publish && r.version == version && version in remote.tags && Tested(remote, head)
    {
      if !answers.validated {
        return Raised;
      }
      var ok := CommitAndTag(version, answers.committed, answers.tagged);
      if !ok {
        return Raised;
      }
      if !publish {
        return Prepared(version);
      }
      ghost var main, ci, tag, start;
      ok, main, ci, tag, start := PushAndDispatch(version, wait, answers.polls);
      return if ok then Published(version) else Raised;
    }

    /** Looks for the tag, here and then on the remote. */
    method FindTag(answers: Answers) returns (tagExists: bool, ghost view: View)
      requires Valid() && answers.selected.Some?
      modifies `remote, `worlds, `steps, `heads
      ensures Valid() && Quietly() && view == View(head, localTags, remote)
      ensures tagExists <==> Finds(answers, view)
    {
      tagExists := answers.selected.value in localTags;
      if !tagExists {
        tagExists := RemoteTagExists(answers.selected.value, answers.tagProbed);
      }
      view := View(head, localTags, remote);
    }

    /** `run_once` once the clone is refreshed and no gate skips the cycle. */
    method RunTarget(publish: bool, wait: bool, dryRun: bool, answers: Answers)
      returns (r: Outcome, ghost view: View)
      requires Valid() && answers.selected.Some? && !Skips(answers, View(head, localTags, remote))
      modifies `head, `localTags, `remote, `worlds, `steps, `heads, `publishing, `recovering, `actions, `calls
      ensures Valid() && Grew() && view.head == old(head) && view.tags == old(localTags)
      ensures publishing == old(publishing) ==> Quietly()
      ensures recovering == old(recovering) ==> NoRecovery()
      ensures if publishing == old(publishing) then calls == old(calls)
              else Publishes(old(calls), calls, answers.selected.value, head, answers.polls)
      ensures recovering != old(recovering) ==> Recovers(old(actions), actions, answers.selected.value, answers.aid)
      ensures Enters(old(publishing), publishing, answers.selected,
                     publish && EntersPublication(answers, view, dryRun))
      ensures Enters(old(recovering), recovering, answers.selected, publish && EntersRecovery(answers, view))
      ensures Finds(answers, view) ==> SelectedIsTagged(answers)
      ensures r != CycleSkipped && (r.DryRun? <==> IsFresh(answers, view) && dryRun)
      ensures r.Prepared? <==> IsFresh(answers, view) && !dryRun && answers.Made() && !publish
      ensures r != Raised ==> r.version == answers.selected.value
      ensures !IsFresh(answers, view) || dryRun ==> head == view.head && localTags == view.tags
      ensures IsFresh(answers, view) && !dryRun && answers.Made() ==> MadeOn(answers.selected.value, view)
      ensures r.Published? ==> publish && (Quietly() || (r.version in remote.tags && Tested(remote, head)))
    {
      var version, tagExists := answers.selected.value, false;
      tagExists, view := FindTag(answers);
      if tagExists {
        if !publish {
          return Raised, view;
        }
        var ok := PublishExistingTag(version, answers.status, answers.aid, wait, answers.polls);
        return if ok then Published(version) else Raised, view;
      }
      if dryRun {
        return DryRun(version), view;
      }
      r := PrepareTarget(version, publish, wait, answers);
    }

    /** A new commit on the HEAD of that view, and a new tag of that version on it. */
    predicate MadeOn(version: Version, view: View)
      reads this
    {
      LocalTagPointsToHead(version) && head.parents == [view.head] && localTags - {version} == view.tags
    }

    /**
     * `run_once`. Which version is selected, whether a gate skips the cycle and what the registries show is up to the
     * outside world, so what is proved holds for every selection. `view` is what the cycle sees once it has refreshed
     * the clone. A gated cycle does nothing more. The train enters `push_and_dispatch`, without which it moves no ref
     * and does not start release-cd, exactly when it publishes and either made the tag itself, outside a dry run and
     * for a version tagged nowhere, or found the version tagged locally at HEAD and known to be incomplete. It enters
     * `recover_existing_release`, without which it starts nothing else, exactly when it publishes, the tag was found,
     * and the version is known to be complete or not tagged at HEAD. Only a tag it makes changes the clone.
     */
    method RunOnce(publish: bool, wait: bool, dryRun: bool, answers: Answers)
      returns (r: Outcome, refreshed: bool, ghost view: View)
      requires Valid()
      modifies this
      ensures Valid() && Grew()
      ensures publishing == old(publishing) ==> Quietly()
      ensures recovering == old(recovering) ==> NoRecovery()
      ensures if publishing == old(publishing) then calls == old(calls)
              else answers.selected.Some? && Publishes(old(calls), calls, answers.selected.value, head, answers.polls)
      ensures recovering != old(recovering) ==>
        answers.selected.Some? && Recovers(old(actions), actions, answers.selected.value, answers.aid)
      ensures Enters(old(publishing), publishing, answers.selected,
                     refreshed && publish && EntersPublication(answers, view, dryRun))
      ensures Enters(old(recovering), recovering, answers.selected,
                     refreshed && publish && EntersRecovery(answers, view))
      ensures refreshed && Finds(answers, view) ==> SelectedIsTagged(answers)
      ensures r == CycleSkipped <==> refreshed && Skips(answers, view)
      ensures r.DryRun? <==> refreshed && IsFresh(answers, view) && dryRun
      ensures r.Prepared? <==> refreshed && IsFresh(answers, view) && !dryRun && answers.Made() && !publish
      ensures r.DryRun? || r.Prepared? || r.Published? ==> Some(r.version) == answers.selected
      ensures !refreshed || !IsFresh(answers, view) || dryRun ==> head == view.head && localTags == view.tags
      ensures refreshed && IsFresh(answers, view) && !dryRun && answers.Made() ==>
        MadeOn(answers.selected.value, view)
      ensures refreshed ==> answers.refresh.cleanOnMain && IsAncestor(originMain, view.head)
      ensures view.head == old(head) || view.head == originMain
      ensures r.Published? ==> publish && (Quietly() || (r.version in remote.tags && Tested(remote, head)))
    {
      ghost var fetched, latest;
      refreshed, fetched, latest := RefreshClone(answers.refresh);
      view := View(head, localTags, remote);
      if !refreshed || answers.selected.None? {
        return Raised, refreshed, view;
      }
      if answers.selected.value !in localTags && answers.gateSkips {
        return CycleSkipped, refreshed, view;
      }
      r, view := RunTarget(publish, wait, dryRun, answers);
    }

    predicate SelectedIsTagged(answers: Answers)
      reads this
    {
      answers.selected.Some? && (answers.selected.value in localTags || answers.selected.value in remote.tags)
    }

    /** Between cycles people may do anything to the clone. */
    method LocalHands()
      requires Valid()
      modifies this
      ensures Valid() && Quietly()
    {
      head := Answer<Commit>();
      localTags := Answer<map<Version, TagObject>>();
      originMain := Answer<Commit>();
      Meanwhile();
    }

    /**
     * Any number of cycles with any flags. Whatever fails and wherever: remote main only moved forward, no tag was
     * moved or removed, every tag that is new and that nobody else made names a tested commit, a dispatch of such a
     * tag is of a tested commit, and every dispatch, whoever made the tag, happens with the train's HEAD on remote
     * main and green.
     */
    method Run(cycles: nat)
      requires Valid() && steps == []
      modifies this
      ensures Valid() && Grew() && worlds[0] == old(remote)
      ensures Later(old(remote), remote)
      ensures forall v :: v in remote.tags && v !in old(remote).tags
                          && (forall i :: 0 <= i < |steps| ==> !MadeByOthers(worlds, steps, i, v))
                ==> Tested(remote, remote.tags[v].commit)
      ensures forall v, i :: 0 <= i < |steps| && Dispatches(steps[i], v) && v !in old(remote).tags
                             && NobodyElseMakes(worlds, steps, v)
                ==> v in worlds[i].tags && Tested(worlds[i], worlds[i].tags[v].commit)
      ensures forall i :: 0 <= i < |steps| && steps[i].Dispatched? ==>
                steps[i].version in worlds[i].tags && Tested(worlds[i], heads[i])
    {
      for cycle := 0 to cycles
        invariant Valid() && Grew()
      {
        LocalHands();
        var publish := Answer<bool>();
        var wait := Answer<bool>();
        var dryRun := Answer<bool>();
        var answers := Answer<Answers>();
        ghost var view;
        var outcome, refreshed;
        outcome, refreshed, view := RunOnce(publish, wait, dryRun, answers);
      }
      assert worlds[0] == old(worlds)[0];
      TraceLater(worlds, steps, 0, |steps|);
      forall v | v in remote.tags && v !in old(remote).tags
                 && (forall i :: 0 <= i < |steps| ==> !MadeByOthers(worlds, steps, i, v))
        ensures Tested(remote, remote.tags[v].commit)
      {
        NewTagsTested(worlds, steps, |steps|, v);
      }
      forall v, i | 0 <= i < |steps| && Dispatches(steps[i], v) && v !in old(remote).tags
                    && NobodyElseMakes(worlds, steps, v)
        ensures v in worlds[i].tags && Tested(worlds[i], worlds[i].tags[v].commit)
      {
        DispatchedTested(worlds, steps, i, v);
      }
      forall i | 0 <= i < |steps| && steps[i].Dispatched?
        ensures steps[i].version in worlds[i].tags && Tested(worlds[i], heads[i])
      {
        DispatchedTagsStay(worlds, steps, i, steps[i].version, i);
        DispatchedAtTestedHead(worlds, steps, i, i);
      }
    }
  }
}
