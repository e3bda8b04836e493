/**
 * The remote side of the stable release train as a state machine: what each step may do to it, and what therefore
 * holds of every trace. The train's own methods are in StableTrain and only ever take these steps.
 */
module TrainTrace {
  import opened StableVersions

  /** A commit is its content and its history, which its hash stands for. */
  datatype Commit = Commit(id: nat, parents: seq<Commit>)

  /** `git merge-base --is-ancestor` */
  predicate IsAncestor(a: Commit, b: Commit)
    decreases b
  {
    a == b || exists i :: 0 <= i < |b.parents| && IsAncestor(a, b.parents[i])
  }

  lemma {:induction false} AncestorTransitive(a: Commit, b: Commit, c: Commit)
    requires IsAncestor(a, b) && IsAncestor(b, c)
    ensures IsAncestor(a, c)
    decreases c
  {
    if b != c {
      var i :| 0 <= i < |c.parents| && IsAncestor(b, c.parents[i]);
      AncestorTransitive(a, b, c.parents[i]);
    }
  }

  /** Commits that are each other's ancestors are one commit. */
  lemma {:induction false} AncestorsAntisymmetric(a: Commit, b: Commit)
    requires IsAncestor(a, b) && IsAncestor(b, a)
    ensures a == b
    decreases b
  {
    if a != b {
      var i :| 0 <= i < |b.parents| && IsAncestor(a, b.parents[i]);
      AncestorTransitive(b, a, b.parents[i]);
      AncestorsAntisymmetric(b, b.parents[i]);
    }
  }

  /** An annotated tag object. */
  datatype TagObject = TagObject(id: nat, commit: Commit)

  type Workflow = string

  const PUSH_CI_WORKFLOWS: set<Workflow> :=
    { "ci", "sdk-python", "sdk-typescript", "cross-sdk-roundtrip", "verifier-conformance",
      "invariants", "sbom", "reproducible-build", "osv-scanner", "codeql" }

  datatype Conclusion = NoConclusion | Success | ActionRequired | Cancelled | Failure | StartupFailure
    | TimedOut | Neutral | Skipped | Stale

  datatype CiRun = CiRun(name: Workflow, head: Commit, completed: bool, conclusion: Conclusion) {
    predicate Passed() {
      completed && conclusion == Success
    }
  }

  /** A ref update on its way to the server: it is carried out only if the ref still is what the client saw. */
  datatype Update = MainUpdate(seen: Commit, next: Commit) | TagUpdate(version: Version, tag: TagObject)

  /** `passed` remembers every commit and workflow that ever had a completed successful run. */
  datatype Remote = Remote(
    main: Commit,
    tags: map<Version, TagObject>,
    runs: map<nat, CiRun>,
    passed: set<(Commit, Workflow)>,
    inFlight: set<Update>)

  predicate RunsRecorded(w: Remote) {
    forall id <- w.runs :: w.runs[id].Passed() ==> (w.runs[id].head, w.runs[id].name) in w.passed
  }

  predicate AllGreen(w: Remote, c: Commit) {
    forall name <- PUSH_CI_WORKFLOWS :: (c, name) in w.passed
  }

  /** On the remote main, and passed every workflow. */
  predicate Tested(w: Remote, c: Commit) {
    IsAncestor(c, w.main) && AllGreen(w, c)
  }

  /** Main moved forward if at all, every tag still there and unmoved, every passed run remembered. */
  predicate Later(w: Remote, next: Remote) {
    && IsAncestor(w.main, next.main)
    && (forall v <- w.tags :: v in next.tags && next.tags[v] == w.tags[v])
    && w.passed <= next.passed
  }

  // ----- Steps -----

  /**
   * `Others`: pushes, merges and CI by anyone else. `Sent`: the train's client puts an update on its way.
   * `Arrived`, `Lost`: the server carries it out, or not, at any later time. `Dispatched`: release-cd is started for
   * a tag, with the train's HEAD at that commit.
   */
  datatype Step =
    | Others(after: Remote)
    | Sent(update: Update)
    | Arrived(update: Update)
    | Lost(update: Update)
    | Dispatched(version: Version, head: Commit)

  /** What the train may send: main only forward, a tag only for a tested commit. */
  predicate MaySend(w: Remote, u: Update) {
    match u
    case MainUpdate(seen, next) => IsAncestor(seen, next)
    case TagUpdate(_, tag) => Tested(w, tag.commit)
  }

  predicate CanArrive(w: Remote, u: Update) {
    u in w.inFlight &&
    match u
    case MainUpdate(seen, _) => w.main == seen
    case TagUpdate(version, _) => version !in w.tags
  }

  function CarriedOut(w: Remote, u: Update): Remote {
    match u
    case MainUpdate(_, next) => w.(main := next, inFlight := w.inFlight - {u})
    case TagUpdate(version, tag) => w.(tags := w.tags[version := tag], inFlight := w.inFlight - {u})
  }

  /** Everyone else is taken to move main forward only and never to move or remove a stable tag. */
  predicate MayFollow(w: Remote, after: Remote) {
    Later(w, after) && after.inFlight == w.inFlight && RunsRecorded(after)
  }

  ghost predicate StepOk(w: Remote, s: Step, next: Remote) {
    match s
    case Others(after) => next == after && MayFollow(w, after)
    case Sent(u) => MaySend(w, u) && next == w.(inFlight := w.inFlight + {u})
    case Arrived(u) => CanArrive(w, u) && next == CarriedOut(w, u)
    case Lost(u) => next == w.(inFlight := w.inFlight - {u})
    case Dispatched(version, head) => version in w.tags && Tested(w, head) && next == w
  }

  ghost predicate IsTrace(worlds: seq<Remote>, steps: seq<Step>) {
    && |worlds| == |steps| + 1
    && worlds[0].inFlight == {} && RunsRecorded(worlds[0])
    && forall i :: 0 <= i < |steps| ==> StepOk(worlds[i], steps[i], worlds[i + 1])
  }

  /** Every update on its way may still be sent. */
  ghost predicate Sound(w: Remote) {
    RunsRecorded(w) && forall u <- w.inFlight :: MaySend(w, u)
  }

  lemma LaterRefl(w: Remote)
    ensures Later(w, w)
  {
  }

  lemma LaterTransitive(a: Remote, b: Remote, c: Remote)
    requires Later(a, b) && Later(b, c)
    ensures Later(a, c)
  {
    AncestorTransitive(a.main, b.main, c.main);
  }

  lemma TestedStays(w: Remote, next: Remote, c: Commit)
    requires Later(w, next) && Tested(w, c)
    ensures Tested(next, c)
  {
    AncestorTransitive(c, w.main, next.main);
  }

  /** Every step keeps the remote sound and only moves it on. */
  lemma StepKeeps(w: Remote, s: Step, next: Remote)
    requires Sound(w) && StepOk(w, s, next)
    ensures Later(w, next) && Sound(next)
  {
    LaterRefl(w);
    if s.Arrived? {
      assert MaySend(w, s.update);
      assert Later(w, next);
    }
    forall u | u in next.inFlight ensures MaySend(next, u) {
      if u in w.inFlight && u.TagUpdate? {
        assert MaySend(w, u);
        TestedStays(w, next, u.tag.commit);
      }
    }
  }

  lemma {:induction false} TraceSound(worlds: seq<Remote>, steps: seq<Step>, i: nat)
    requires IsTrace(worlds, steps) && i <= |steps|
    ensures Sound(worlds[i])
  {
    if i > 0 {
      TraceSound(worlds, steps, i - 1);
      StepKeeps(worlds[i - 1], steps[i - 1], worlds[i]);
    }
  }

  // ----- What holds of every trace -----

  /** Remote main only moves forward, and no tag is ever moved or removed. */
  lemma {:induction false} TraceLater(worlds: seq<Remote>, steps: seq<Step>, i: nat, j: nat)
    requires IsTrace(worlds, steps) && i <= j <= |steps|
    ensures Later(worlds[i], worlds[j])
  {
    LaterRefl(worlds[i]);
    if i < j {
      TraceLater(worlds, steps, i, j - 1);
      TraceSound(worlds, steps, j - 1);
      StepKeeps(worlds[j - 1], steps[j - 1], worlds[j]);
      LaterTransitive(worlds[i], worlds[j - 1], worlds[j]);
    }
  }

  /** Where a tag of the remote came from: there from the start, made by someone else, or by the train. */
  ghost predicate MadeByOthers(worlds: seq<Remote>, steps: seq<Step>, i: nat, v: Version) {
    i < |steps| && |worlds| == |steps| + 1 && steps[i].Others? && v !in worlds[i].tags && v in worlds[i + 1].tags
  }

  ghost predicate MadeByTrain(worlds: seq<Remote>, steps: seq<Step>, i: nat, v: Version, tag: TagObject) {
    i < |steps| && |worlds| == |steps| + 1 && steps[i] == Arrived(TagUpdate(v, tag)) && v !in worlds[i].tags
  }

  lemma {:induction false} TagOrigin(worlds: seq<Remote>, steps: seq<Step>, j: nat, v: Version)
    requires IsTrace(worlds, steps) && j <= |steps| && v in worlds[j].tags
    ensures v in worlds[0].tags
         || (exists i: nat :: i < j && MadeByOthers(worlds, steps, i, v))
         || (exists i: nat :: i < j && MadeByTrain(worlds, steps, i, v, worlds[j].tags[v]))
  {
    if j > 0 {
      var w, s := worlds[j - 1], steps[j - 1];
      assert StepOk(w, s, worlds[j]);
      if v in w.tags {
        TagOrigin(worlds, steps, j - 1, v);
        TraceLater(worlds, steps, j - 1, j);
      } else if s.Others? {
        assert MadeByOthers(worlds, steps, j - 1, v);
      } else {
        assert s == Arrived(TagUpdate(v, worlds[j].tags[v]));
        assert MadeByTrain(worlds, steps, j - 1, v, worlds[j].tags[v]);
      }
    }
  }

  /**
   * Every tag the train adds names a commit that was on remote main, with every workflow passed, when the tag
   * arrived; and both hold ever after.
   */
  lemma {:induction false} TrainTagsTested(worlds: seq<Remote>, steps: seq<Step>, i: nat, v: Version,
          tag: TagObject, k: nat)
    requires IsTrace(worlds, steps) && MadeByTrain(worlds, steps, i, v, tag)
    requires i <= k <= |steps|
    ensures Tested(worlds[k], tag.commit)
    ensures k > i ==> v in worlds[k].tags && worlds[k].tags[v] == tag
  {
    var u := TagUpdate(v, tag);
    TraceSound(worlds, steps, i);
    assert StepOk(worlds[i], Arrived(u), worlds[i + 1]);
    assert u in worlds[i].inFlight && MaySend(worlds[i], u);
    TraceLater(worlds, steps, i, k);
    TestedStays(worlds[i], worlds[k], tag.commit);
    if k > i {
      TraceLater(worlds, steps, i + 1, k);
    }
  }

  /** So a tag that was not there at first and that nobody else made names a tested commit. */
  lemma NewTagsTested(worlds: seq<Remote>, steps: seq<Step>, j: nat, v: Version)
    requires IsTrace(worlds, steps) && j <= |steps| && v in worlds[j].tags
    requires v !in worlds[0].tags && forall i :: 0 <= i < j ==> !MadeByOthers(worlds, steps, i, v)
    ensures Tested(worlds[j], worlds[j].tags[v].commit)
  {
    TagOrigin(worlds, steps, j, v);
    var i: nat :| i < j && MadeByTrain(worlds, steps, i, v, worlds[j].tags[v]);
    TrainTagsTested(worlds, steps, i, v, worlds[j].tags[v], j);
  }

  predicate Dispatches(s: Step, v: Version) {
    s.Dispatched? && s.version == v
  }

  /** release-cd is only ever dispatched with HEAD on remote main and green, then and ever after. */
  lemma DispatchedAtTestedHead(worlds: seq<Remote>, steps: seq<Step>, i: nat, k: nat)
    requires IsTrace(worlds, steps) && i < |steps| && steps[i].Dispatched? && i <= k <= |steps|
    ensures Tested(worlds[k], steps[i].head)
  {
    assert StepOk(worlds[i], steps[i], worlds[i + 1]);
    TraceLater(worlds, steps, i, k);
    TestedStays(worlds[i], worlds[k], steps[i].head);
  }

  /** And only for a tag that the remote has, then and ever after. */
  lemma DispatchedTagsStay(worlds: seq<Remote>, steps: seq<Step>, i: nat, v: Version, k: nat)
    requires IsTrace(worlds, steps) && i < |steps| && Dispatches(steps[i], v) && i <= k <= |steps|
    ensures v in worlds[i].tags && v in worlds[k].tags && worlds[k].tags[v] == worlds[i].tags[v]
  {
    assert StepOk(worlds[i], steps[i], worlds[i + 1]);
    TraceLater(worlds, steps, i, k);
  }

  // ----- When a dispatched tag is tested -----

  ghost predicate NobodyElseMakes(worlds: seq<Remote>, steps: seq<Step>, v: Version) {
    forall i :: 0 <= i < |steps| ==> !MadeByOthers(worlds, steps, i, v)
  }

  /** A dispatch of a tag that was not there at first and that nobody else made is a dispatch of a tested commit. */
  lemma DispatchedTested(worlds: seq<Remote>, steps: seq<Step>, i: nat, v: Version)
    requires IsTrace(worlds, steps) && i < |steps| && Dispatches(steps[i], v)
    requires v !in worlds[0].tags && NobodyElseMakes(worlds, steps, v)
    ensures v in worlds[i].tags && Tested(worlds[i], worlds[i].tags[v].commit)
  {
    DispatchedTagsStay(worlds, steps, i, v, i);
    NewTagsTested(worlds, steps, i, v);
  }

  /** The i-th step of a trace from this remote is a dispatch; unless `othersTag`, nobody else makes that tag. */
  ghost predicate IsDispatch(w: Remote, v: Version, othersTag: bool, worlds: seq<Remote>, steps: seq<Step>, i: nat) {
    && IsTrace(worlds, steps) && worlds[0] == w && i < |steps| && Dispatches(steps[i], v)
    && (othersTag || NobodyElseMakes(worlds, steps, v))
  }

  predicate TagTested(w: Remote, v: Version) {
    v in w.tags && Tested(w, w.tags[v].commit)
  }

  /** Every dispatch of the version, on every trace from this remote, is of a tested commit. */
  ghost predicate DispatchesTested(w: Remote, v: Version, othersTag: bool) {
    forall worlds: seq<Remote>, steps: seq<Step>, i: nat :: IsDispatch(w, v, othersTag, worlds, steps, i) ==>
      TagTested(worlds[i], v)
  }

  /** What can be checked before a run: a tag already there names a tested commit; else nobody else may make it. */
  predicate SafeToDispatch(w: Remote, v: Version, othersTag: bool) {
    if v in w.tags then TagTested(w, v) else !othersTag
  }

  function Height(c: Commit): nat
    decreases c, 0
  {
    1 + Heights(c.parents, |c.parents|)
  }

  /** The heights of the first n commits together. */
  function Heights(cs: seq<Commit>, n: nat): nat
    requires n <= |cs|
    decreases cs, n
  {
    if n == 0 then 0 else Heights(cs, n - 1) + Height(cs[n - 1])
  }

  lemma {:induction false} HeightOfOne(cs: seq<Commit>, n: nat, i: nat)
    requires i < n <= |cs|
    ensures Height(cs[i]) <= Heights(cs, n)
  {
    if i < n - 1 {
      HeightOfOne(cs, n - 1, i);
    }
  }

  lemma {:induction false} AncestorsAreLower(a: Commit, b: Commit)
    requires IsAncestor(a, b)
    ensures a == b || Height(a) < Height(b)
    decreases b
  {
    if a != b {
      var i :| 0 <= i < |b.parents| && IsAncestor(a, b.parents[i]);
      AncestorsAreLower(a, b.parents[i]);
      HeightOfOne(b.parents, |b.parents|, i);
    }
  }

  /** A commit on top of main is not on main. */
  lemma {:induction false} ChildIsNotAncestor(id: nat, main: Commit)
    ensures !IsAncestor(Commit(id, [main]), main)
  {
    var child := Commit(id, [main]);
    assert child.parents[0] == main;
    HeightOfOne(child.parents, 1, 0);
    if IsAncestor(child, main) {
      AncestorsAreLower(child, main);
    }
  }

  /** Somebody else puts a commit on main, and it passes every workflow. */
  function GreenMain(w: Remote, id: nat): Remote {
    var next := Commit(id, [w.main]);
    w.(main := next, passed := w.passed + (set name <- PUSH_CI_WORKFLOWS :: (next, name)))
  }

  lemma GreenMainFollows(w: Remote, id: nat)
    requires RunsRecorded(w)
    ensures MayFollow(w, GreenMain(w, id)) && Tested(GreenMain(w, id), GreenMain(w, id).main)
  {
    assert GreenMain(w, id).main.parents[0] == w.main;
  }

  /** That makes no other commit tested. */
  lemma OthersStayUntested(w: Remote, id: nat, c: Commit)
    requires c != GreenMain(w, id).main
    ensures Tested(GreenMain(w, id), c) ==> Tested(w, c)
  {
    var next := GreenMain(w, id);
    assert next.main.parents == [w.main];
    assert forall name :: (c, name) in next.passed <==> (c, name) in w.passed;
  }

  /** The train, its HEAD at a main that others moved and that passed, dispatches a tag of another commit. */
  lemma {:induction false} DispatchAfter(w: Remote, after: Remote, v: Version, othersTag: bool)
    requires w.inFlight == {} && RunsRecorded(w) && MayFollow(w, after) && Tested(after, after.main)
    requires v in after.tags && !TagTested(after, v) && (othersTag || v in w.tags)
    ensures !DispatchesTested(w, v, othersTag)
  {
    var worlds, steps := [w, after, after], [Others(after), Dispatched(v, after.main)];
    assert StepOk(worlds[0], steps[0], worlds[1]) && StepOk(worlds[1], steps[1], worlds[2]);
    assert IsTrace(worlds, steps);
    assert v in w.tags ==> NobodyElseMakes(worlds, steps, v);
    assert IsDispatch(w, v, othersTag, worlds, steps, 1);
  }

  /** A tag that is there on an untested commit can be dispatched once another commit on main has passed. */
  lemma {:induction false} UntestedTagDispatched(w: Remote, v: Version)
    requires w.inFlight == {} && RunsRecorded(w)
    requires v in w.tags && !TagTested(w, v)
    ensures !DispatchesTested(w, v, false) && !DispatchesTested(w, v, true)
  {
    var id := w.tags[v].commit.id + 1;
    GreenMainFollows(w, id);
    OthersStayUntested(w, id, w.tags[v].commit);
    DispatchAfter(w, GreenMain(w, id), v, false);
    DispatchAfter(w, GreenMain(w, id), v, true);
  }

  /** And so can one that somebody else makes. */
  lemma {:induction false} OthersTagDispatched(w: Remote, v: Version)
    requires w.inFlight == {} && RunsRecorded(w) && v !in w.tags
    ensures !DispatchesTested(w, v, true)
  {
    var aside := Commit(0, [w.main]);
    var green := GreenMain(w, 1);
    var tagged := green.(tags := w.tags[v := TagObject(0, aside)]);
    GreenMainFollows(w, 1);
    ChildIsNotAncestor(0, w.main);
    OthersStayUntested(w, 1, aside);
    assert MayFollow(w, tagged) && Tested(tagged, tagged.main);
    DispatchAfter(w, tagged, v, true);
  }

  lemma SafeDispatch(w: Remote, v: Version, othersTag: bool, worlds: seq<Remote>, steps: seq<Step>, i: nat)
    requires IsDispatch(w, v, othersTag, worlds, steps, i) && SafeToDispatch(w, v, othersTag)
    ensures TagTested(worlds[i], v)
  {
    if v in w.tags {
      TraceLater(worlds, steps, 0, i);
      TestedStays(w, worlds[i], w.tags[v].commit);
    } else {
      DispatchedTested(worlds, steps, i, v);
    }
  }

  /**
   * release-cd is dispatched for tested commits only, on every trace from a remote, exactly when the tag is already
   * there on a tested commit, or is not there and nobody else may make it.
   */
  lemma {:induction false} DispatchTestedExactly(w: Remote, v: Version, othersTag: bool)
    requires w.inFlight == {} && RunsRecorded(w)
    ensures DispatchesTested(w, v, othersTag) <==> SafeToDispatch(w, v, othersTag)
  {
    if SafeToDispatch(w, v, othersTag) {
      forall worlds: seq<Remote>, steps: seq<Step>, i: nat | IsDispatch(w, v, othersTag, worlds, steps, i)
        ensures TagTested(worlds[i], v)
      {
        SafeDispatch(w, v, othersTag, worlds, steps, i);
      }
    } else if v in w.tags {
      UntestedTagDispatched(w, v);
    } else {
      OthersTagDispatched(w, v);
    }
  }
}
