// The worker task table: what every operation of src/ael/storage.py does to it, on values.
// Timestamps are microseconds; the clock of every operation is its own argument.
module TaskTable {
  import opened Common

  datatype TaskStatus = QUEUED | LEASED | RUNNING | SUCCEEDED | FAILED | CANCELLED | EXPIRED

  predicate Active(status: TaskStatus)
  {
    status == LEASED || status == RUNNING
  }

  predicate Terminal(status: TaskStatus)
  {
    status == SUCCEEDED || status == FAILED || status == CANCELLED
  }

  /** The verdict of a worker; only these three occur in a result document. */
  type ResultStatus = s: TaskStatus | Terminal(s) witness SUCCEEDED

  datatype WorkerResult = WorkerResult(taskId: string, token: string, status: ResultStatus, report: string)

  datatype Task = Task(
    taskId: string,
    taskType: string,
    required: set<string>,
    payload: string,
    key: string,
    status: TaskStatus,
    owner: Option<string>,
    token: Option<string>,
    expires: Option<int>,
    attempts: nat,
    result: Option<WorkerResult>,
    createdAt: int)

  datatype Row = Row(task: Task, updatedAt: int)

  type Table = map<string, Row>

  datatype Registration = Registration(capabilities: set<string>, enabled: bool)

  datatype Store = Store(tasks: Table, workers: map<string, Registration>)

  /** How a call ends: an answer, no task, or one of the exceptions it raises. */
  datatype Reply = Answer(task: Task) | NoTask | Done | PermissionError | ValueError | IntegrityError

  /**
    The operations of both stores. A lease of the server store considers a limited number of candidates,
    one of the local store all; registering again enables a worker in the server store only.
   */
  datatype Op =
    | Register(worker: string, capabilities: set<string>, enables: bool)
    | Enqueue(task: Task, now: int)
    | Lease(limit: Option<nat>, worker: string, seconds: int, now: int, token: string)
    | Heartbeat(worker: string, taskId: string, token: string, running: bool, seconds: int, now: int)
    | Complete(worker: string, result: WorkerResult, now: int)
    | Cancel(taskId: string, now: int)

  function Expiry(now: int, seconds: int): int
  {
    now + 1_000_000 * seconds
  }

  // ---- Enqueue ------------------------------------------------------------------------------

  ghost predicate HasKey(tasks: Table, key: string)
  {
    exists id :: id in tasks && tasks[id].task.key == key
  }

  function FreshRow(task: Task, now: int): Row
  {
    Row(task.(status := QUEUED, owner := None, token := None, expires := None, attempts := 0, result := None), now)
  }

  // ---- Lease --------------------------------------------------------------------------------

  predicate Overdue(row: Row, now: int)
  {
    Active(row.task.status) && row.task.expires.Some? && row.task.expires.value < now
  }

  function Requeued(row: Row, now: int): Row
  {
    Row(row.task.(status := QUEUED, owner := None, token := None, expires := None), now)
  }

  function Reclaim(tasks: Table, now: int): Table
  {
    map id <- tasks :: if Overdue(tasks[id], now) then Requeued(tasks[id], now) else tasks[id]
  }

  /** The order of ORDER BY created_at, task_id. */
  predicate Before(tasks: Table, a: string, b: string)
    requires a in tasks && b in tasks
  {
    tasks[a].task.createdAt < tasks[b].task.createdAt
    || (tasks[a].task.createdAt == tasks[b].task.createdAt && TextLess(a, b))
  }

  lemma BeforeTransitive(tasks: Table, a: string, b: string, c: string)
    requires a in tasks && b in tasks && c in tasks
    requires Before(tasks, a, b) && Before(tasks, b, c)
    ensures Before(tasks, a, c)
  {
    if TextLess(a, b) && TextLess(b, c) {
      TextLessTransitive(a, b, c);
    }
  }

  lemma BeforeTotal(tasks: Table, a: string, b: string)
    requires a in tasks && b in tasks
    ensures a == b || Before(tasks, a, b) || Before(tasks, b, a)
  {
    TextLessTotal(a, b);
  }

  predicate IsLeast(tasks: Table, ids: set<string>, m: string)
    requires ids <= tasks.Keys
  {
    m in ids && forall k <- ids :: k == m || Before(tasks, m, k)
  }

  lemma LeastExists(tasks: Table, ids: set<string>)
    requires ids <= tasks.Keys && ids != {}
    ensures exists m :: IsLeast(tasks, ids, m)
  {
    var before := (a: string, b: string) => a in tasks && b in tasks && Before(tasks, a, b);
    forall a, b | a in ids && b in ids
      ensures a == b || before(a, b) || before(b, a)
    {
      BeforeTotal(tasks, a, b);
    }
    forall a, b, c | a in ids && b in ids && c in ids && before(a, b) && before(b, c)
      ensures before(a, c)
    {
      BeforeTransitive(tasks, a, b, c);
    }
    FirstExists(ids, before);
    var m :| IsFirst(ids, before, m);
    assert IsLeast(tasks, ids, m);
  }

  lemma LeastUnique(tasks: Table, ids: set<string>, a: string, b: string)
    requires ids <= tasks.Keys && IsLeast(tasks, ids, a) && IsLeast(tasks, ids, b)
    ensures a == b
  {
    if a != b {
      BeforeTransitive(tasks, a, b, a);
      TextLessIrreflexive(a);
    }
  }

  function Least(tasks: Table, ids: set<string>): (m: string)
    requires ids <= tasks.Keys && ids != {}
    ensures IsLeast(tasks, ids, m)
  {
    LeastExists(tasks, ids);
    assert forall a, b :: IsLeast(tasks, ids, a) && IsLeast(tasks, ids, b) ==> a == b by {
      forall a, b | IsLeast(tasks, ids, a) && IsLeast(tasks, ids, b) ensures a == b {
        LeastUnique(tasks, ids, a, b);
      }
    }
    var m :| m in ids && IsLeast(tasks, ids, m);
    m
  }

  /** The rows of a query in their order. */
  function Sorted(tasks: Table, ids: set<string>): seq<string>
    requires ids <= tasks.Keys
    decreases ids
  {
    if ids == {} then []
    else
      var m := Least(tasks, ids);
      [m] + Sorted(tasks, ids - {m})
  }

  function QueuedIds(tasks: Table): set<string>
  {
    set id <- tasks | tasks[id].task.status == QUEUED
  }

  predicate Covered(tasks: Table, capabilities: set<string>, id: string)
    requires id in tasks
  {
    tasks[id].task.required <= capabilities
  }

  /** The first row of a list that the capabilities cover. */
  function FirstCovered(tasks: Table, capabilities: set<string>, rows: seq<string>): Option<string>
    requires forall i :: 0 <= i < |rows| ==> rows[i] in tasks
  {
    if rows == [] then None
    else if Covered(tasks, capabilities, rows[0]) then Some(rows[0])
    else FirstCovered(tasks, capabilities, rows[1..])
  }

  lemma {:induction false} SortedMembers(tasks: Table, ids: set<string>)
    requires ids <= tasks.Keys
    ensures forall id :: id in Sorted(tasks, ids) <==> id in ids
    ensures forall i :: 0 <= i < |Sorted(tasks, ids)| ==> Sorted(tasks, ids)[i] in tasks
    ensures |Sorted(tasks, ids)| == |ids|
    decreases ids
  {
    if ids == {} {
    } else {
      SortedMembers(tasks, ids - {Least(tasks, ids)});
    }
  }

  /** The sorted rows ascend strictly, so each of them appears once. */
  lemma {:induction false} SortedAscends(tasks: Table, ids: set<string>)
    requires ids <= tasks.Keys
    ensures var s := Sorted(tasks, ids);
            forall i, j :: 0 <= i < j < |s| ==> s[i] in tasks && s[j] in tasks && Before(tasks, s[i], s[j])
    decreases ids
  {
    if ids == {} {
    } else {
      var m := Least(tasks, ids);
      var rest := Sorted(tasks, ids - {m});
      SortedAscends(tasks, ids - {m});
      SortedMembers(tasks, ids - {m});
      var s := Sorted(tasks, ids);
      forall i, j | 0 <= i < j < |s|
        ensures s[i] in tasks && s[j] in tasks && Before(tasks, s[i], s[j])
      {
        assert s[j] == rest[j - 1] && rest[j - 1] in rest;
      }
    }
  }

  function QueuedRows(tasks: Table): (rows: seq<string>)
    ensures forall i :: 0 <= i < |rows| ==> rows[i] in tasks
  {
    SortedMembers(tasks, QueuedIds(tasks));
    Sorted(tasks, QueuedIds(tasks))
  }

  function Leased(row: Row, worker: string, seconds: int, now: int, token: string): Row
  {
    Row(row.task.(status := LEASED, owner := Some(worker), token := Some(token),
                  expires := Some(Expiry(now, seconds)), attempts := row.task.attempts + 1), now)
  }

  function Grant(s: Store, selected: Option<string>, worker: string, seconds: int, now: int, token: string): (Store, Reply)
    requires selected.Some? ==> selected.value in s.tasks
  {
    match selected
    case None => (s, NoTask)
    case Some(id) =>
      var row := Leased(s.tasks[id], worker, seconds, now, token);
      (s.(tasks := s.tasks[id := row]), Answer(row.task))
  }

  predicate MayLease(s: Store, worker: string)
  {
    worker in s.workers && s.workers[worker].enabled
  }

  lemma {:induction false} FirstCoveredIsRow(tasks: Table, capabilities: set<string>, rows: seq<string>)
    requires forall i :: 0 <= i < |rows| ==> rows[i] in tasks
    ensures var f := FirstCovered(tasks, capabilities, rows); f.Some? ==> f.value in rows && f.value in tasks
  {
    if rows != [] && !Covered(tasks, capabilities, rows[0]) {
      FirstCoveredIsRow(tasks, capabilities, rows[1..]);
    }
  }

  function Candidates(rows: seq<string>, limit: Option<nat>): (seen: seq<string>)
    ensures forall i :: 0 <= i < |seen| ==> i < |rows| && seen[i] == rows[i]
  {
    if limit.Some? && limit.value < |rows| then rows[..limit.value] else rows
  }

  /** A lease considers the first limit rows of the queue, or all of them; the reclaim is kept even when it finds none. */
  function LeaseWithin(s: Store, limit: Option<nat>, worker: string, seconds: int, now: int, token: string): (Store, Reply)
  {
    if seconds <= 0 then (s, ValueError)
    else if !MayLease(s, worker) then (s, PermissionError)
    else
      var tasks := Reclaim(s.tasks, now);
      var rows := QueuedRows(tasks);
      var seen := Candidates(rows, limit);
      FirstCoveredIsRow(tasks, s.workers[worker].capabilities, seen);
      Grant(s.(tasks := tasks), FirstCovered(tasks, s.workers[worker].capabilities, seen), worker, seconds, now, token)
  }

  // ---- Heartbeat, completion, cancellation --------------------------------------------------

  predicate HoldsLease(tasks: Table, taskId: string, worker: string, token: string)
  {
    && taskId in tasks && tasks[taskId].task.owner == Some(worker) && tasks[taskId].task.token == Some(token)
    && Active(tasks[taskId].task.status)
  }

  function Update(s: Store, id: string, row: Row): (Store, Reply)
  {
    (s.(tasks := s.tasks[id := row]), Answer(row.task))
  }

  // ---- One operation ---------------------------------------------------------------------------

  ghost function Apply(s: Store, op: Op): (Store, Reply)
  {
    match op
    case Register(worker, capabilities, enables) =>
      var enabled := enables || worker !in s.workers || s.workers[worker].enabled;
      (s.(workers := s.workers[worker := Registration(capabilities, enabled)]), Done)
    case Enqueue(task, now) =>
      if HasKey(s.tasks, task.key) then
        var id :| id in s.tasks && s.tasks[id].task.key == task.key;
        (s, Answer(s.tasks[id].task))
      else if task.taskId in s.tasks then (s, IntegrityError)
      else (s.(tasks := s.tasks[task.taskId := FreshRow(task, now)]), Answer(task))
    case Lease(limit, worker, seconds, now, token) =>
      LeaseWithin(s, limit, worker, seconds, now, token)
    case Heartbeat(worker, taskId, token, running, seconds, now) =>
      if seconds <= 0 then (s, ValueError)
      else if !HoldsLease(s.tasks, taskId, worker, token) then (s, PermissionError)
      else
        var row := s.tasks[taskId];
        Update(s, taskId, Row(row.task.(status := if running then RUNNING else LEASED,
                                        expires := Some(Expiry(now, seconds))), now))
    case Complete(worker, result, now) =>
      if !HoldsLease(s.tasks, result.taskId, worker, result.token) then (s, PermissionError)
      else
        var row := s.tasks[result.taskId];
        Update(s, result.taskId, Row(row.task.(status := result.status, result := Some(result), expires := None), now))
    case Cancel(taskId, now) =>
      if taskId in s.tasks && (s.tasks[taskId].task.status == QUEUED || Active(s.tasks[taskId].task.status)) then
        var row := s.tasks[taskId];
        Update(s, taskId, Row(row.task.(status := CANCELLED), now))
      else (s, ValueError)
  }

  const EMPTY := Store(map[], map[])

  /** The store after the first n operations of a run, from the empty store. */
  ghost function After(ops: seq<Op>, n: nat): Store
    requires n <= |ops|
  {
    if n == 0 then EMPTY else Apply(After(ops, n - 1), ops[n - 1]).0
  }

  ghost function ReplyAt(ops: seq<Op>, i: nat): Reply
    requires i < |ops|
  {
    Apply(After(ops, i), ops[i]).1
  }
}
