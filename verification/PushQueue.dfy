/**
 * The push queue of the alpha train as values: its tables, what each update leaves of them, what one pass over the
 * due tasks is, and what holds after any number of passes and updates.
 */
module PushQueue {
  import opened World

  type Release = string

  /** `main`, or the release's own tag: the only refs that callers queue for a release. */
  datatype Ref = Main | ReleaseTag

  datatype Key = Key(release: Release, ref: Ref)

  datatype Stage = MainPushed | TagPushed

  datatype StageStatus = StageQueued | StageDone

  datatype TaskStatus = Queued | Cooldown | Done

  datatype Reason = Timeout | NetworkUnavailable | AuthOrRepoUnavailable | Rejected | OtherReason(text: string)

  datatype Task = Task(status: TaskStatus, attempts: int, lastError: Option<Reason>, nextAttempt: int,
          created: int, updated: int)

  datatype Event =
    | TaskQueued(key: Key)
    | TaskUpdated(key: Key, status: TaskStatus)
    | StageMarked(release: Release, stage: Stage, marked: StageStatus)

  datatype Tables = Tables(tasks: map<Key, Task>, stages: map<(Release, Stage), StageStatus>, events: seq<Event>)

  function StageName(ref: Ref): Stage {
    if ref == Main then MainPushed else TagPushed
  }

  // ----- Cooldown -----

  function Max(a: int, b: int): int {
    if a >= b then a else b
  }

  function Min(a: int, b: int): int {
    if a <= b then a else b
  }

  /** `git_push_cooldown_seconds_for_failure` */
  function CooldownSeconds(reason: Reason, attempts: int, defaultSeconds: int): int {
    var n := Max(1, attempts);
    match reason
    case Timeout => Max(defaultSeconds, Min(3600, 900 * n))
    case NetworkUnavailable => Max(defaultSeconds, Min(3600, 600 * n))
    case AuthOrRepoUnavailable => Max(defaultSeconds, 3600)
    case Rejected => Max(60, Min(defaultSeconds, 60 * n))
    case OtherReason(_) => defaultSeconds
  }

  /** Every cooldown is at least a second exactly when the configured one is. */
  lemma CooldownPositiveExactly(defaultSeconds: int)
    ensures defaultSeconds >= 1 <==>
      forall reason, attempts :: CooldownSeconds(reason, attempts, defaultSeconds) >= 1
  {
    assert CooldownSeconds(OtherReason(""), 1, defaultSeconds) == defaultSeconds;
  }

  /** More attempts never shorten a cooldown, which stays within an hour or the configured time. */
  lemma CooldownGrowsWithinBounds(reason: Reason, m: int, n: int, defaultSeconds: int)
    requires m <= n
    ensures CooldownSeconds(reason, m, defaultSeconds) <= CooldownSeconds(reason, n, defaultSeconds)
    ensures CooldownSeconds(reason, n, defaultSeconds) <= Max(defaultSeconds, 3600)
  {
  }

  /**
   * The cooldowns in seconds after the first, the second and the further failures, with a short configured time: by
   * 15 minutes up to an hour, by 10 minutes up to an hour, an hour, or by a minute up to the configured time. A longer
   * configured time takes the place of the first three.
   */
  lemma CooldownNumbers(n: int, defaultSeconds: int)
    requires n >= 1
    ensures defaultSeconds <= 600 ==>
      && CooldownSeconds(Timeout, n, defaultSeconds) == (if n == 1 then 900 else if n == 2 then 1800
                                                         else if n == 3 then 2700 else 3600)
      && CooldownSeconds(NetworkUnavailable, n, defaultSeconds) == (if n <= 5 then 600 * n else 3600)
      && CooldownSeconds(AuthOrRepoUnavailable, n, defaultSeconds) == 3600
    ensures defaultSeconds >= 3600 ==>
      && CooldownSeconds(Timeout, n, defaultSeconds) == defaultSeconds
      && CooldownSeconds(NetworkUnavailable, n, defaultSeconds) == defaultSeconds
      && CooldownSeconds(AuthOrRepoUnavailable, n, defaultSeconds) == defaultSeconds
    ensures CooldownSeconds(Rejected, 1, defaultSeconds) == 60
    ensures 60 * n <= defaultSeconds ==> CooldownSeconds(Rejected, n, defaultSeconds) == 60 * n
    ensures 60 <= defaultSeconds < 60 * n ==> CooldownSeconds(Rejected, n, defaultSeconds) == defaultSeconds
    ensures forall text :: CooldownSeconds(OtherReason(text), n, defaultSeconds) == defaultSeconds
    ensures forall reason, m :: m < 1 ==>
      CooldownSeconds(reason, m, defaultSeconds) == CooldownSeconds(reason, 1, defaultSeconds)
  {
  }

  // ----- One update -----

  /**
   * One record of a task: done, or the reason it cools down; the attempts that the selected row showed, and the clock
   * when it was written.
   */
  datatype Processed = Processed(key: Key, failure: Option<Reason>, attempts: int, clock: int) {
    function Status(): TaskStatus {
      if failure.None? then Done else Cooldown
    }
  }

  /** `next_attempt_at_epoch or now` */
  function OrNow(epoch: int, clock: int): int {
    if epoch == 0 then clock else epoch
  }

  function NewTask(clock: int): Task {
    Task(Queued, 0, None, clock, clock, clock)
  }

  /** The row that `update_git_push_task` leaves, inserting one if there is none. */
  function WrittenTask(tasks: map<Key, Task>, key: Key, status: TaskStatus, lastError: Option<Reason>,
                       attemptsDelta: int, next: Option<int>, clock: int): Task
  {
    var epoch := if next.None? then clock else OrNow(next.value, clock);
    if key in tasks then
      Task(status, tasks[key].attempts + attemptsDelta, lastError, epoch, tasks[key].created, clock)
    else Task(status, Max(0, attemptsDelta), lastError, epoch, clock, clock)
  }

  function AttemptsDelta(p: Processed): int {
    if p.failure.None? then 0 else 1
  }

  function NextAttempt(p: Processed, now: int, defaultSeconds: int): Option<int> {
    if p.failure.None? then None
    else Some(now + CooldownSeconds(p.failure.value, p.attempts + 1, defaultSeconds))
  }

  function UpdatedTask(tasks: map<Key, Task>, p: Processed, now: int, defaultSeconds: int): Task {
    WrittenTask(tasks, p.key, p.Status(), p.failure, AttemptsDelta(p), NextAttempt(p, now, defaultSeconds), p.clock)
  }

  function AfterMark(t: Tables, release: Release, stage: Stage, status: StageStatus): Tables {
    t.(stages := t.stages[(release, stage) := status], events := t.events + [StageMarked(release, stage, status)])
  }

  /** The first of the two transactions of an update: the task row and its event. */
  function AfterTaskUpdate(t: Tables, p: Processed, now: int, defaultSeconds: int): Tables {
    t.(tasks := t.tasks[p.key := UpdatedTask(t.tasks, p, now, defaultSeconds)],
       events := t.events + [TaskUpdated(p.key, p.Status())])
  }

  function StageAfter(status: TaskStatus): StageStatus {
    if status == Done then StageDone else StageQueued
  }

  /** `update_git_push_task`: the task, then its stage. */
  function AfterUpdate(t: Tables, p: Processed, now: int, defaultSeconds: int): Tables {
    AfterMark(AfterTaskUpdate(t, p, now, defaultSeconds), p.key.release, StageName(p.key.ref), StageAfter(p.Status()))
  }

  function AfterAll(t: Tables, ps: seq<Processed>, now: int, defaultSeconds: int): Tables {
    if ps == [] then t
    else AfterUpdate(AfterAll(t, ps[..|ps| - 1], now, defaultSeconds), ps[|ps| - 1], now, defaultSeconds)
  }

  // ----- Updates that raise -----

  /** Where an update raises: before it commits anything, between its two transactions, or after both, when the
      snapshot of the tables is written. */
  datatype Fault = NoFault | BeforeCommit | AfterTask | AfterStage

  datatype Write = Write(p: Processed, fault: Fault)

  /** What an update leaves of the tables, whether or not it raises. */
  function AfterWrite(t: Tables, w: Write, now: int, defaultSeconds: int): Tables {
    match w.fault
    case BeforeCommit => t
    case AfterTask => AfterTaskUpdate(t, w.p, now, defaultSeconds)
    case _ => AfterUpdate(t, w.p, now, defaultSeconds)
  }

  /** `enqueue_git_push_task`: a done task stays; another keeps its attempts and its next attempt. */
  function AfterEnqueue(t: Tables, key: Key, clock: int): Tables {
    if key in t.tasks && t.tasks[key].status == Done then t
    else
      var task := if key in t.tasks then t.tasks[key].(status := Queued, updated := clock) else NewTask(clock);
      t.(tasks := t.tasks[key := task], events := t.events + [TaskQueued(key)])
  }

  /**
   * Enqueueing changes no task but one that is not done. A new task is due from that moment on, with no attempt; one
   * that is there loses neither its attempts nor the time it is due.
   */
  lemma EnqueueKeepsDue(t: Tables, key: Key, clock: int, k: Key, now: int)
    ensures var after := AfterEnqueue(t, key, clock).tasks;
      && after.Keys == t.tasks.Keys + {key}
      && (k != key && k in t.tasks ==> after[k] == t.tasks[k])
      && (key in t.tasks ==> after[key].attempts == t.tasks[key].attempts
                             && after[key].nextAttempt == t.tasks[key].nextAttempt
                             && (key in DueKeys(after, now) <==> key in DueKeys(t.tasks, now)))
      && (key !in t.tasks ==> after[key].attempts == 0 && (key in DueKeys(after, now) <==> clock <= now))
  {
  }

  // ----- One pass -----

  predicate IsDue(task: Task, now: int) {
    task.status != Done && task.nextAttempt <= now
  }

  function DueKeys(tasks: map<Key, Task>, now: int): set<Key> {
    set k | k in tasks && IsDue(tasks[k], now)
  }

  /** The selected columns that the pass reads. */
  datatype Row = Row(key: Key, attempts: int, nextAttempt: int, created: int)

  function RowOf(key: Key, task: Task): Row {
    Row(key, task.attempts, task.nextAttempt, task.created)
  }

  /** The ORDER BY of the selection: main before tags, then next attempt, then creation. */
  predicate NotAfter(a: Row, b: Row) {
    if a.key.ref != b.key.ref then a.key.ref == Main
    else a.nextAttempt < b.nextAttempt || (a.nextAttempt == b.nextAttempt && a.created <= b.created)
  }

  predicate Sorted(rows: seq<Row>) {
    forall i, j :: 0 <= i < j < |rows| ==> NotAfter(rows[i], rows[j])
  }

  predicate DistinctRows(rows: seq<Row>) {
    forall i, j :: 0 <= i < j < |rows| ==> rows[i].key != rows[j].key
  }

  function RowKeys(rows: seq<Row>): (keys: seq<Key>)
    ensures |keys| == |rows|
    ensures forall i :: 0 <= i < |rows| ==> keys[i] == rows[i].key
  {
    seq(|rows|, i requires 0 <= i < |rows| => rows[i].key)
  }

  function ProcessedKeys(ps: seq<Processed>): (keys: seq<Key>)
    ensures |keys| == |ps|
    ensures forall i :: 0 <= i < |ps| ==> keys[i] == ps[i].key
  {
    seq(|ps|, i requires 0 <= i < |ps| => ps[i].key)
  }

  /** Exactly the due tasks, each once, in order. Rows that compare equal may come either way. */
  ghost predicate IsSelection(rows: seq<Row>, tasks: map<Key, Task>, now: int) {
    && (forall i :: 0 <= i < |rows| ==>
        rows[i].key in DueKeys(tasks, now) && rows[i] == RowOf(rows[i].key, tasks[rows[i].key]))
    && (forall k :: k in DueKeys(tasks, now) ==> k in RowKeys(rows))
    && DistinctRows(rows)
    && Sorted(rows)
  }

  /** How many rows the cap leaves. */
  function Allowed(rows: seq<Row>, cap: Option<int>): nat {
    if cap.None? || cap.value >= |rows| then |rows| else if cap.value < 0 then 0 else cap.value
  }

  function MainCount(rows: seq<Row>): (m: nat)
    ensures m <= |rows|
    ensures forall i :: 0 <= i < m ==> rows[i].key.ref == Main
    ensures m < |rows| ==> rows[m].key.ref == ReleaseTag
  {
    if rows == [] then 0
    else
      match rows[0].key.ref
      case Main => 1 + MainCount(rows[1..])
      case ReleaseTag => 0
  }

  /**
   * What one pass may do with the selected rows: the mains in order, each done except perhaps the last one handled,
   * at which it then stops; and only when all mains are done the tags that the cap leaves, all of them.
   */
  predicate IsPass(rows: seq<Row>, ps: seq<Processed>, cap: Option<int>) {
    var n := Allowed(rows, cap);
    var m := Min(MainCount(rows), n);
    && |ps| <= n
    && (forall i :: 0 <= i < |ps| && i < m ==> ps[i].key == rows[i].key)
    && (forall i :: 0 <= i < |ps| - 1 && i < m ==> ps[i].failure.None?)
    && (|ps| < n ==> 0 < |ps| <= m && ps[|ps| - 1].failure.Some?)
    && (|ps| == n ==> multiset(ProcessedKeys(ps)[m..]) == multiset(RowKeys(rows)[m..n]))
  }

  // ----- A pass in which an update raises -----

  /** A record carries the key and the attempts of the row that was selected. */
  predicate IsRecordOf(p: Processed, row: Row) {
    p.key == row.key && p.attempts == row.attempts
  }

  predicate HasRow(rows: seq<Row>, p: Processed) {
    exists j :: 0 <= j < |rows| && IsRecordOf(p, rows[j])
  }

  predicate FromRows(rows: seq<Row>, ps: seq<Processed>) {
    forall i :: 0 <= i < |ps| ==> HasRow(rows, ps[i])
  }

  /**
   * How a pass ends: whole; or with an update that raised out of the pass; or with a main's update that raised and
   * the cooldown that the exception handler wrote over it.
   */
  datatype Ending = Whole | Aborted(last: Write) | Handled(first: Write, handler: Write)

  /** The handler's own update may raise as well. */
  predicate Raised(e: Ending) {
    e.Aborted? || (e.Handled? && e.handler.fault != NoFault)
  }

  function EndingKeys(e: Ending): seq<Key> {
    match e
    case Whole => []
    case Aborted(w) => [w.p.key]
    case Handled(w, _) => [w.p.key]
  }

  function AfterEnding(t: Tables, e: Ending, now: int, defaultSeconds: int): Tables {
    match e
    case Whole => t
    case Aborted(w) => AfterWrite(t, w, now, defaultSeconds)
    case Handled(w, h) => AfterWrite(AfterWrite(t, w, now, defaultSeconds), h, now, defaultSeconds)
  }

  /** The records, and then what the update that raised and its handler wrote. */
  function AfterPass(t: Tables, ps: seq<Processed>, e: Ending, now: int, defaultSeconds: int): Tables {
    AfterEnding(AfterAll(t, ps, now, defaultSeconds), e, now, defaultSeconds)
  }

  function HandledKeys(ps: seq<Processed>, e: Ending): seq<Key> {
    ProcessedKeys(ps) + EndingKeys(e)
  }

  /**
   * The handler writes a cooldown: over the update that raised, or as the only update when the probe or the push
   * raised; that alone is an ordinary record unless it raises too.
   */
  predicate IsMainEnding(row: Row, e: Ending) {
    match e
    case Whole => false
    case Aborted(w) => IsRecordOf(w.p, row) && w.p.failure.Some? && w.fault != NoFault
    case Handled(w, h) => IsRecordOf(w.p, row) && IsRecordOf(h.p, row) && w.fault != NoFault && h.p.failure.Some?
  }

  /** Every main before the ending was done; the ending is a main's, or the update of a tag, which nothing handles. */
  predicate IsCutShort(rows: seq<Row>, ps: seq<Processed>, e: Ending, cap: Option<int>) {
    var n := Allowed(rows, cap);
    var m := Min(MainCount(rows), n);
    && |ps| < n
    && (forall i :: 0 <= i < |ps| && i < m ==> ps[i].key == rows[i].key && ps[i].failure.None?)
    && if |ps| < m then IsMainEnding(rows[|ps|], e)
       else
         && e.Aborted? && e.last.fault != NoFault && HasRow(rows, e.last.p)
         && multiset(HandledKeys(ps, e)[m..]) <= multiset(RowKeys(rows)[m..n])
  }

  /** One pass, whatever raises in it. */
  predicate IsAnyPass(rows: seq<Row>, ps: seq<Processed>, e: Ending, cap: Option<int>) {
    FromRows(rows, ps) && if e.Whole? then IsPass(rows, ps, cap) else IsCutShort(rows, ps, e, cap)
  }

  predicate Distinct(ps: seq<Processed>) {
    forall i, j :: 0 <= i < j < |ps| ==> ps[i].key != ps[j].key
  }

  predicate DistinctKeys(keys: seq<Key>) {
    forall i, j :: 0 <= i < j < |keys| ==> keys[i] != keys[j]
  }

  /** Mains come first, and among the mains, as among the tags, those due earlier, and then those created earlier. */
  lemma SelectedInOrder(rows: seq<Row>, tasks: map<Key, Task>, now: int, i: nat, j: nat)
    requires IsSelection(rows, tasks, now) && i < j < |rows|
    ensures var a, b := rows[i].key, rows[j].key;
      && a in tasks && b in tasks && (b.ref == Main ==> a.ref == Main)
      && (a.ref == b.ref ==> tasks[a].nextAttempt <= tasks[b].nextAttempt <= now)
      && (a.ref == b.ref && tasks[a].nextAttempt == tasks[b].nextAttempt ==> tasks[a].created <= tasks[b].created)
  {
    assert rows[i] == RowOf(rows[i].key, tasks[rows[i].key]) && rows[j] == RowOf(rows[j].key, tasks[rows[j].key]);
    assert NotAfter(rows[i], rows[j]);
  }

  // ----- What a pass does -----

  /** Every row that is not handled stays as it was. */
  lemma {:induction false} OtherTasksStay(t: Tables, ps: seq<Processed>, now: int, defaultSeconds: int, k: Key)
    requires k !in ProcessedKeys(ps)
    ensures var after := AfterAll(t, ps, now, defaultSeconds).tasks;
      && (k in after <==> k in t.tasks)
      && (k in t.tasks ==> after[k] == t.tasks[k])
  {
    if ps != [] {
      var n := |ps| - 1;
      assert ProcessedKeys(ps) == ProcessedKeys(ps[..n]) + [ps[n].key];
      OtherTasksStay(t, ps[..n], now, defaultSeconds, k);
    }
  }

  /** Each task that is handled gets the update of its own record. */
  lemma {:induction false} HandledTask(t: Tables, ps: seq<Processed>, now: int, defaultSeconds: int, i: nat)
    requires Distinct(ps) && i < |ps|
    ensures var after := AfterAll(t, ps, now, defaultSeconds).tasks;
      ps[i].key in after && after[ps[i].key] == UpdatedTask(t.tasks, ps[i], now, defaultSeconds)
  {
    var n := |ps| - 1;
    if i < n {
      HandledTask(t, ps[..n], now, defaultSeconds, i);
    } else {
      forall j | 0 <= j < n ensures ProcessedKeys(ps[..n])[j] != ps[n].key {
        assert ps[j].key != ps[n].key;
      }
      OtherTasksStay(t, ps[..n], now, defaultSeconds, ps[n].key);
    }
  }

  /** Only the stages of handled tasks change. */
  lemma {:induction false} OtherStagesStay(t: Tables, ps: seq<Processed>, now: int, defaultSeconds: int, k: Key)
    requires k !in ProcessedKeys(ps)
    ensures var s, after := (k.release, StageName(k.ref)), AfterAll(t, ps, now, defaultSeconds).stages;
      && (s in after <==> s in t.stages)
      && (s in t.stages ==> after[s] == t.stages[s])
  {
    if ps != [] {
      var n := |ps| - 1;
      OtherStagesStay(t, ps[..n], now, defaultSeconds, k);
      assert ProcessedKeys(ps) == ProcessedKeys(ps[..n]) + [ps[n].key];
    }
  }

  lemma KeySlices(rows: seq<Row>, ps: seq<Processed>, m: nat, n: nat)
    requires m <= n <= |rows| && |ps| == n
    requires forall i :: 0 <= i < m ==> ps[i].key == rows[i].key
    requires multiset(ProcessedKeys(ps)[m..]) == multiset(RowKeys(rows)[m..n])
    ensures multiset(ProcessedKeys(ps)) == multiset(RowKeys(rows)[..n])
  {
    var a, b := ProcessedKeys(ps), RowKeys(rows)[..n];
    assert a == a[..m] + a[m..] && b == b[..m] + b[m..];
    assert a[..m] == b[..m] && b[m..] == RowKeys(rows)[m..n];
  }

  /** The handled tasks are the first of the selected rows, as many as were handled, each once. */
  lemma PassHandles(rows: seq<Row>, ps: seq<Processed>, cap: Option<int>)
    requires IsPass(rows, ps, cap) && DistinctRows(rows)
    ensures |ps| <= |rows| && multiset(ProcessedKeys(ps)) == multiset(RowKeys(rows)[..|ps|])
    ensures Distinct(ps)
  {
    var n := Allowed(rows, cap);
    var m := Min(MainCount(rows), n);
    if |ps| == n {
      KeySlices(rows, ps, m, n);
    } else {
      assert ProcessedKeys(ps) == RowKeys(rows)[..|ps|];
    }
    DistinctAsMultiset(RowKeys(rows)[..|ps|], ProcessedKeys(ps));
    forall i, j | 0 <= i < j < |ps| ensures ps[i].key != ps[j].key {
      assert ProcessedKeys(ps)[i] != ProcessedKeys(ps)[j];
    }
  }

  lemma {:induction false} DistinctCount(a: seq<Key>, k: Key)
    requires DistinctKeys(a)
    ensures multiset(a)[k] <= 1
  {
    if a != [] {
      var init, last := a[..|a| - 1], a[|a| - 1];
      DistinctCount(init, k);
      assert a == init + [last];
      assert forall i :: 0 <= i < |init| ==> init[i] == a[i];
    }
  }

  lemma TwiceCounted(b: seq<Key>, i: nat, j: nat)
    requires i < j < |b| && b[i] == b[j]
    ensures multiset(b)[b[i]] >= 2
  {
    assert b == b[..j] + [b[j]] + b[j + 1..];
    assert b[..j][i] == b[i];
  }

  lemma DistinctAsMultiset(a: seq<Key>, b: seq<Key>)
    requires DistinctKeys(a) && multiset(b) <= multiset(a)
    ensures DistinctKeys(b)
  {
    forall i, j | 0 <= i < j < |b| ensures b[i] != b[j] {
      DistinctCount(a, b[i]);
      if b[i] == b[j] {
        TwiceCounted(b, i, j);
      }
    }
  }

  lemma SameElements(a: seq<Key>, b: seq<Key>, i: nat)
    requires multiset(a) <= multiset(b) && i < |a|
    ensures exists j :: 0 <= j < |b| && b[j] == a[i]
  {
    assert a[i] in multiset(a);
    assert a[i] in b;
  }

  lemma HandledWasSelected(rows: seq<Row>, ps: seq<Processed>, cap: Option<int>, i: nat)
    requires IsPass(rows, ps, cap) && DistinctRows(rows) && i < |ps|
    ensures exists j :: 0 <= j < |ps| <= |rows| && rows[j].key == ps[i].key
  {
    PassHandles(rows, ps, cap);
    SameElements(ProcessedKeys(ps), RowKeys(rows)[..|ps|], i);
    var j :| 0 <= j < |ps| && RowKeys(rows)[..|ps|][j] == ps[i].key;
  }

  /** A record's key was due, and its attempts are those the task had then. */
  lemma RecordOfDue(rows: seq<Row>, p: Processed, tasks: map<Key, Task>, now: int)
    requires IsSelection(rows, tasks, now) && HasRow(rows, p)
    ensures p.key in DueKeys(tasks, now) && p.attempts == tasks[p.key].attempts
  {
    var j :| 0 <= j < |rows| && IsRecordOf(p, rows[j]);
    assert rows[j] == RowOf(rows[j].key, tasks[rows[j].key]);
  }

  /**
   * One pass handles only due tasks, each at most once, no more than the cap, and no tag before a main; it stops
   * after the first main that cools down, and otherwise handles as many due tasks as the cap leaves.
   */
  lemma {:induction false} PassIsOrderly(rows: seq<Row>, ps: seq<Processed>, cap: Option<int>, tasks: map<Key, Task>,
          now: int)
    requires IsSelection(rows, tasks, now) && IsPass(rows, ps, cap)
    ensures Distinct(ps)
    ensures forall i :: 0 <= i < |ps| ==> ps[i].key in DueKeys(tasks, now)
    ensures cap.Some? ==> |ps| <= Max(cap.value, 0)
    ensures forall i, j :: 0 <= i < j < |ps| && ps[j].key.ref == Main ==> ps[i].key.ref == Main && ps[i].failure.None?
    ensures (exists i :: 0 <= i < |ps| && ps[i].key.ref == Main && ps[i].failure.Some?) ==>
      forall i :: 0 <= i < |ps| ==> ps[i].key.ref == Main
    ensures (forall i :: 0 <= i < |ps| && ps[i].key.ref == Main ==> ps[i].failure.None?) ==> |ps| == Allowed(rows, cap)
  {
    var n := Allowed(rows, cap);
    var m := Min(MainCount(rows), n);
    PassHandles(rows, ps, cap);
    forall i | 0 <= i < |ps| ensures ps[i].key in DueKeys(tasks, now) {
      HandledWasSelected(rows, ps, cap, i);
    }
    forall i | m <= i < |ps| ensures ps[i].key.ref == ReleaseTag {
      LaterRowsAreTags(rows, ps, cap, i);
    }
  }

  lemma TagsFollowMains(rows: seq<Row>)
    requires Sorted(rows)
    ensures forall j :: MainCount(rows) <= j < |rows| ==> rows[j].key.ref == ReleaseTag
  {
    var m := MainCount(rows);
    forall j | m <= j < |rows| ensures rows[j].key.ref == ReleaseTag {
      assert j == m || NotAfter(rows[m], rows[j]);
    }
  }

  /** Past the mains that the cap leaves, only tags are handled. */
  lemma LaterRowsAreTags(rows: seq<Row>, ps: seq<Processed>, cap: Option<int>, i: nat)
    requires IsPass(rows, ps, cap) && Sorted(rows)
    requires Min(MainCount(rows), Allowed(rows, cap)) <= i < |ps|
    ensures ps[i].key.ref == ReleaseTag
  {
    TagsFollowMains(rows);
    TagInSlice(rows, ProcessedKeys(ps), MainCount(rows), |ps|, i);
  }

  lemma TagInSlice(rows: seq<Row>, keys: seq<Key>, m: nat, n: nat, i: nat)
    requires m <= i < |keys| && m <= n <= |rows|
    requires multiset(keys[m..]) <= multiset(RowKeys(rows)[m..n])
    requires forall j :: m <= j < |rows| ==> rows[j].key.ref == ReleaseTag
    ensures keys[i].ref == ReleaseTag
  {
    var a, b := keys[m..], RowKeys(rows)[m..n];
    SameElements(a, b, i - m);
    var j :| 0 <= j < |b| && b[j] == a[i - m];
    assert a[i - m] == keys[i] && b[j] == rows[m + j].key;
  }

  /** With a cooldown of at least a second a handled task is done or due strictly later. */
  lemma {:induction false} HandledIsCleared(t: Tables, ps: seq<Processed>, now: int, defaultSeconds: int, i: nat)
    requires Distinct(ps) && i < |ps| && now >= 0 && defaultSeconds >= 1
    ensures var k, after := ps[i].key, AfterAll(t, ps, now, defaultSeconds).tasks;
      k in after && (after[k].status == Done || after[k].nextAttempt > now)
  {
    HandledTask(t, ps, now, defaultSeconds, i);
    CooldownPositiveExactly(defaultSeconds);
  }

  /**
   * A handled task that failed has one more attempt than it had, the reason it failed for, and comes up again after
   * the cooldown that this many attempts call for.
   */
  lemma {:induction false} CooledTask(t: Tables, rows: seq<Row>, ps: seq<Processed>, cap: Option<int>, now: int,
          defaultSeconds: int, i: nat)
    requires IsSelection(rows, t.tasks, now) && IsAnyPass(rows, ps, Whole, cap) && i < |ps| && ps[i].failure.Some?
    requires now >= 0 && defaultSeconds >= 1
    ensures var k, reason, after := ps[i].key, ps[i].failure.value, AfterAll(t, ps, now, defaultSeconds).tasks;
      && k in t.tasks && k in after && after[k].status == Cooldown
      && after[k].attempts == t.tasks[k].attempts + 1 && after[k].lastError == Some(reason)
      && after[k].nextAttempt == now + CooldownSeconds(reason, t.tasks[k].attempts + 1, defaultSeconds)
  {
    PassHandles(rows, ps, cap);
    HandledTask(t, ps, now, defaultSeconds, i);
    RecordOfDue(rows, ps[i], t.tasks, now);
    CooldownPositiveExactly(defaultSeconds);
  }

  /** A pass clears the tasks it handles, leaves every other row as it was, and makes no other task due. */
  lemma {:induction false} PassClearsWhatItHandles(t: Tables, ps: seq<Processed>, now: int, defaultSeconds: int)
    requires Distinct(ps) && now >= 0 && defaultSeconds >= 1
    ensures var after := AfterAll(t, ps, now, defaultSeconds).tasks;
      && (forall k :: k in t.tasks && k !in ProcessedKeys(ps) ==> k in after && after[k] == t.tasks[k])
      && (forall k :: k in DueKeys(after, now) <==> k in DueKeys(t.tasks, now) && k !in ProcessedKeys(ps))
  {
    var after, keys := AfterAll(t, ps, now, defaultSeconds).tasks, ProcessedKeys(ps);
    forall k
      ensures k in t.tasks && k !in keys ==> k in after && after[k] == t.tasks[k]
      ensures k in DueKeys(after, now) <==> k in DueKeys(t.tasks, now) && k !in keys
    {
      if k in keys {
        var i :| 0 <= i < |keys| && keys[i] == k;
        HandledIsCleared(t, ps, now, defaultSeconds, i);
      } else {
        OtherTasksStay(t, ps, now, defaultSeconds, k);
      }
    }
  }

  // ----- What a pass does when an update raises -----

  /** Rows that an update does not name keep their task and their stage. */
  lemma OthersStayInWrite(t: Tables, w: Write, now: int, defaultSeconds: int, k: Key)
    requires k != w.p.key
    ensures var after, s := AfterWrite(t, w, now, defaultSeconds), (k.release, StageName(k.ref));
      && (k in after.tasks <==> k in t.tasks) && (k in t.tasks ==> after.tasks[k] == t.tasks[k])
      && (s in after.stages <==> s in t.stages) && (s in t.stages ==> after.stages[s] == t.stages[s])
  {
  }

  /** Every row that a pass does not handle stays as it was, whatever raises in the pass. */
  lemma {:induction false} OthersStayInPass(t: Tables, ps: seq<Processed>, e: Ending, now: int, defaultSeconds: int,
          k: Key)
    requires k !in HandledKeys(ps, e) && (e.Handled? ==> e.handler.p.key == e.first.p.key)
    ensures var after, s := AfterPass(t, ps, e, now, defaultSeconds), (k.release, StageName(k.ref));
      && (k in after.tasks <==> k in t.tasks) && (k in t.tasks ==> after.tasks[k] == t.tasks[k])
      && (s in after.stages <==> s in t.stages) && (s in t.stages ==> after.stages[s] == t.stages[s])
  {
    var all := AfterAll(t, ps, now, defaultSeconds);
    assert k !in ProcessedKeys(ps) && k !in EndingKeys(e);
    OtherTasksStay(t, ps, now, defaultSeconds, k);
    OtherStagesStay(t, ps, now, defaultSeconds, k);
    match e
    case Whole =>
    case Aborted(w) =>
      assert k != w.p.key;
      OthersStayInWrite(all, w, now, defaultSeconds, k);
    case Handled(w, h) =>
      assert k != w.p.key;
      OthersStayInWrite(all, w, now, defaultSeconds, k);
      OthersStayInWrite(AfterWrite(all, w, now, defaultSeconds), h, now, defaultSeconds, k);
  }

  /** A pass handles no more rows than the cap leaves, and only the first of them, however it ends. */
  lemma {:induction false} AnyPassHandles(rows: seq<Row>, ps: seq<Processed>, e: Ending, cap: Option<int>)
    requires IsAnyPass(rows, ps, e, cap) && DistinctRows(rows)
    ensures |HandledKeys(ps, e)| <= Allowed(rows, cap)
    ensures multiset(HandledKeys(ps, e)) <= multiset(RowKeys(rows)[..Allowed(rows, cap)])
    ensures DistinctKeys(HandledKeys(ps, e))
  {
    if e.Whole? {
      WholePassHandles(rows, ps, cap);
      assert HandledKeys(ps, e) == ProcessedKeys(ps);
    } else if |ps| < Min(MainCount(rows), Allowed(rows, cap)) {
      CutAtMainHandles(rows, ps, e, cap);
    } else {
      CutAtTagHandles(rows, ps, e, cap);
    }
    FirstDistinct(rows, Allowed(rows, cap));
    DistinctAsMultiset(RowKeys(rows)[..Allowed(rows, cap)], HandledKeys(ps, e));
  }

  lemma FirstDistinct(rows: seq<Row>, n: nat)
    requires DistinctRows(rows) && n <= |rows|
    ensures DistinctKeys(RowKeys(rows)[..n])
  {
  }

  lemma CutAtMainHandles(rows: seq<Row>, ps: seq<Processed>, e: Ending, cap: Option<int>)
    requires IsCutShort(rows, ps, e, cap) && |ps| < Min(MainCount(rows), Allowed(rows, cap))
    ensures |HandledKeys(ps, e)| <= Allowed(rows, cap)
    ensures multiset(HandledKeys(ps, e)) <= multiset(RowKeys(rows)[..Allowed(rows, cap)])
  {
    PrefixCounts(RowKeys(rows)[..Allowed(rows, cap)], |ps| + 1);
    assert HandledKeys(ps, e) == RowKeys(rows)[..Allowed(rows, cap)][..|ps| + 1];
  }

  lemma WholePassHandles(rows: seq<Row>, ps: seq<Processed>, cap: Option<int>)
    requires IsPass(rows, ps, cap) && DistinctRows(rows)
    ensures |ps| <= Allowed(rows, cap) && multiset(ProcessedKeys(ps)) <= multiset(RowKeys(rows)[..Allowed(rows, cap)])
  {
    PassHandles(rows, ps, cap);
    PrefixCounts(RowKeys(rows)[..Allowed(rows, cap)], |ps|);
    assert RowKeys(rows)[..Allowed(rows, cap)][..|ps|] == RowKeys(rows)[..|ps|];
  }

  lemma CutAtTagHandles(rows: seq<Row>, ps: seq<Processed>, e: Ending, cap: Option<int>)
    requires IsCutShort(rows, ps, e, cap) && Min(MainCount(rows), Allowed(rows, cap)) <= |ps|
    ensures |HandledKeys(ps, e)| <= Allowed(rows, cap)
    ensures multiset(HandledKeys(ps, e)) <= multiset(RowKeys(rows)[..Allowed(rows, cap)])
  {
    var n, keys := Allowed(rows, cap), HandledKeys(ps, e);
    var m, first := Min(MainCount(rows), n), RowKeys(rows)[..n];
    assert keys[..m] == first[..m] && first[m..] == RowKeys(rows)[m..n];
    TailCounts(keys, first, m);
  }

  lemma TailCounts(a: seq<Key>, b: seq<Key>, m: nat)
    requires m <= |a| && m <= |b| && a[..m] == b[..m]
    requires multiset(a[m..]) <= multiset(b[m..])
    ensures |a| <= |b| && multiset(a) <= multiset(b)
  {
    assert a == a[..m] + a[m..] && b == b[..m] + b[m..];
    assert |a[m..]| == |multiset(a[m..])| && |b[m..]| == |multiset(b[m..])|;
    assert multiset(b[m..]) == multiset(a[m..]) + (multiset(b[m..]) - multiset(a[m..]));
  }

  lemma PrefixCounts(a: seq<Key>, n: nat)
    requires n <= |a|
    ensures multiset(a[..n]) <= multiset(a)
  {
    assert a == a[..n] + a[n..];
  }

  /** Every task that a pass handles, the one at which it was cut short included, was due. */
  lemma HandledWasDue(rows: seq<Row>, ps: seq<Processed>, e: Ending, cap: Option<int>, tasks: map<Key, Task>,
          now: int, i: nat)
    requires IsSelection(rows, tasks, now) && IsAnyPass(rows, ps, e, cap) && i < |HandledKeys(ps, e)|
    ensures HandledKeys(ps, e)[i] in DueKeys(tasks, now)
  {
    var first := RowKeys(rows)[..Allowed(rows, cap)];
    AnyPassHandles(rows, ps, e, cap);
    SameElements(HandledKeys(ps, e), first, i);
    var j :| 0 <= j < |first| && first[j] == HandledKeys(ps, e)[i];
    assert rows[j].key == first[j];
  }

  /**
   * A pass that was cut short handled only mains that were done, and perhaps tags after them; if it was cut short at
   * a main, it handled no tag.
   */
  lemma {:induction false} CutShortIsOrderly(rows: seq<Row>, ps: seq<Processed>, e: Ending, cap: Option<int>)
    requires IsCutShort(rows, ps, e, cap) && Sorted(rows)
    ensures forall i :: 0 <= i < |ps| && ps[i].key.ref == Main ==> ps[i].failure.None?
    ensures forall i, j :: 0 <= i < j < |ps| && ps[j].key.ref == Main ==> ps[i].key.ref == Main
    ensures EndingKeys(e)[0].ref == Main ==> forall i :: 0 <= i < |ps| ==> ps[i].key.ref == Main
    ensures EndingKeys(e)[0].ref == ReleaseTag ==> e.Aborted?
  {
    var m := Min(MainCount(rows), Allowed(rows, cap));
    if |ps| >= m {
      CutAtTag(rows, ps, e, cap);
      assert HandledKeys(ps, e)[|ps|] == EndingKeys(e)[0];
      forall i | m <= i < |ps| ensures ps[i].key.ref == ReleaseTag {
        assert HandledKeys(ps, e)[i] == ps[i].key;
      }
    }
  }

  lemma CutAtTag(rows: seq<Row>, ps: seq<Processed>, e: Ending, cap: Option<int>)
    requires IsCutShort(rows, ps, e, cap) && Sorted(rows)
    ensures var m := Min(MainCount(rows), Allowed(rows, cap));
      m <= |ps| ==> forall i :: m <= i < |HandledKeys(ps, e)| ==> HandledKeys(ps, e)[i].ref == ReleaseTag
  {
    var n := Allowed(rows, cap);
    var m := Min(MainCount(rows), n);
    if m <= |ps| {
      TagsFollowMains(rows);
      forall i | m <= i < |HandledKeys(ps, e)| ensures HandledKeys(ps, e)[i].ref == ReleaseTag {
        TagInSlice(rows, HandledKeys(ps, e), m, n, i);
      }
    }
  }

  /** Unless an update raised out of the pass, what it handled is no longer due. */
  lemma HandledNotDue(t: Tables, ps: seq<Processed>, e: Ending, now: int, defaultSeconds: int, k: Key)
    requires Distinct(ps) && !Raised(e) && k in HandledKeys(ps, e)
    requires e.Handled? ==> e.handler.p.key == e.first.p.key && e.handler.p.failure.Some?
    requires now >= 0 && defaultSeconds >= 1
    ensures k !in DueKeys(AfterPass(t, ps, e, now, defaultSeconds).tasks, now)
  {
    var all := AfterAll(t, ps, now, defaultSeconds);
    if e.Handled? && k == e.first.p.key {
      CooldownPositiveExactly(defaultSeconds);
    } else {
      assert k in ProcessedKeys(ps);
      PassClearsWhatItHandles(t, ps, now, defaultSeconds);
      assert k !in DueKeys(all.tasks, now);
      if e.Handled? {
        OthersStayInWrite(all, e.first, now, defaultSeconds, k);
        OthersStayInWrite(AfterWrite(all, e.first, now, defaultSeconds), e.handler, now, defaultSeconds, k);
      }
    }
  }

  /** Unless an update raised out of it, a pass clears exactly what it handled. */
  lemma {:induction false} AnyPassClears(t: Tables, rows: seq<Row>, ps: seq<Processed>, e: Ending, cap: Option<int>,
          now: int, defaultSeconds: int)
    requires IsSelection(rows, t.tasks, now) && IsAnyPass(rows, ps, e, cap) && !Raised(e)
    requires now >= 0 && defaultSeconds >= 1
    ensures var after := AfterPass(t, ps, e, now, defaultSeconds).tasks;
      forall k :: k in DueKeys(after, now) <==> k in DueKeys(t.tasks, now) && k !in HandledKeys(ps, e)
  {
    AnyPassHandles(rows, ps, e, cap);
    DistinctRecords(ps, EndingKeys(e));
    if e.Handled? {
      HandlerCools(rows, ps, e, cap);
    }
    var after := AfterPass(t, ps, e, now, defaultSeconds).tasks;
    forall k ensures k in DueKeys(after, now) <==> k in DueKeys(t.tasks, now) && k !in HandledKeys(ps, e) {
      if k in HandledKeys(ps, e) {
        HandledNotDue(t, ps, e, now, defaultSeconds, k);
      } else {
        OthersStayInPass(t, ps, e, now, defaultSeconds, k);
      }
    }
  }

  lemma DistinctRecords(ps: seq<Processed>, more: seq<Key>)
    requires DistinctKeys(ProcessedKeys(ps) + more)
    ensures Distinct(ps)
  {
    var keys := ProcessedKeys(ps) + more;
    forall i, j | 0 <= i < j < |ps| ensures ps[i].key != ps[j].key {
      assert keys[i] == ps[i].key && keys[j] == ps[j].key;
    }
  }

  /** The handler writes a cooldown for the task whose update raised. */
  lemma HandlerCools(rows: seq<Row>, ps: seq<Processed>, e: Ending, cap: Option<int>)
    requires IsAnyPass(rows, ps, e, cap) && e.Handled?
    ensures e.handler.p.key == e.first.p.key && e.handler.p.failure.Some?
  {
  }

  /** So under a cap of at least one it leaves strictly fewer due tasks, until there are none. */
  lemma {:induction false} AnyPassShrinksDue(t: Tables, rows: seq<Row>, ps: seq<Processed>, e: Ending, cap: Option<int>,
          now: int, defaultSeconds: int)
    requires IsSelection(rows, t.tasks, now) && IsAnyPass(rows, ps, e, cap) && !Raised(e)
    requires now >= 0 && defaultSeconds >= 1 && (cap.Some? ==> cap.value >= 1)
    ensures var after := AfterPass(t, ps, e, now, defaultSeconds).tasks;
      && DueKeys(after, now) <= DueKeys(t.tasks, now)
      && (DueKeys(t.tasks, now) != {} ==> |DueKeys(after, now)| < |DueKeys(t.tasks, now)|)
  {
    var due, after := DueKeys(t.tasks, now), DueKeys(AfterPass(t, ps, e, now, defaultSeconds).tasks, now);
    AnyPassClears(t, rows, ps, e, cap, now, defaultSeconds);
    if due != {} {
      var k :| k in due;
      assert k in RowKeys(rows);
      assert |HandledKeys(ps, e)| > 0;
      HandledWasDue(rows, ps, e, cap, t.tasks, now, 0);
      assert HandledKeys(ps, e)[0] in HandledKeys(ps, e);
      Smaller(after, due, HandledKeys(ps, e)[0]);
    }
  }

  lemma Smaller(a: set<Key>, b: set<Key>, k: Key)
    requires a <= b && k in b && k !in a
    ensures |a| < |b|
  {
    assert b == a + (b - a);
    assert k in b - a;
  }
}
