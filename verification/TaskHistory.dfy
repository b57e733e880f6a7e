// Every row of every reachable table, read off the operations of the run: what each operation answers,
// what it does to a row, and what a row therefore is.
module TaskHistory {
  import opened Common
  import opened TaskTable
  import opened TaskProtocol

  // ---- Answers ---------------------------------------------------------------------------------------

  /** The worker holds the lease of an active task. */
  ghost predicate Leases(tasks: Table, id: string, worker: string, token: string)
  {
    && id in tasks && tasks[id].task.owner == Some(worker) && tasks[id].task.token == Some(token)
    && (tasks[id].task.status == LEASED || tasks[id].task.status == RUNNING)
  }

  ghost predicate Enabled(workers: map<string, Registration>, worker: string)
  {
    worker in workers && workers[worker].enabled
  }

  /** When an operation is refused, and how. */
  ghost function Refused(s: Store, op: Op): Option<Reply>
  {
    match op
    case Register(_, _, _) => None
    case Enqueue(task, _) =>
      if task.taskId in s.tasks && forall id <- s.tasks :: s.tasks[id].task.key != task.key then Some(IntegrityError) else None
    case Lease(_, worker, seconds, _, _) =>
      if seconds <= 0 then Some(ValueError) else if !Enabled(s.workers, worker) then Some(PermissionError) else None
    case Heartbeat(worker, id, token, _, seconds, _) =>
      if seconds <= 0 then Some(ValueError) else if !Leases(s.tasks, id, worker, token) then Some(PermissionError) else None
    case Complete(worker, result, _) =>
      if !Leases(s.tasks, result.taskId, worker, result.token) then Some(PermissionError) else None
    case Cancel(id, _) =>
      if id in s.tasks && s.tasks[id].task.status in {QUEUED, LEASED, RUNNING} then None else Some(ValueError)
  }

  /** A refused operation answers with its error and changes nothing; any other does not answer with an error. */
  lemma RefusedExactly(s: Store, op: Op)
    ensures Refused(s, op).Some? ==> Apply(s, op) == (s, Refused(s, op).value)
    ensures Refused(s, op).None? ==> Apply(s, op).1.Answer? || Apply(s, op).1 == NoTask || Apply(s, op).1 == Done
  {
    hide Reclaim, QueuedRows, FirstCovered, Candidates;
  }

  /** Only registering changes a registration: it stores the capabilities, and enables a new worker, or any when it enables. */
  lemma RegistrationsAre(s: Store, op: Op, worker: string)
    ensures var after := Apply(s, op).0.workers;
            if op.Register? && op.worker == worker then
              && worker in after && after[worker].capabilities == op.capabilities
              && (after[worker].enabled <==> op.enables || worker !in s.workers || s.workers[worker].enabled)
            else (worker in after <==> worker in s.workers) && (worker in after ==> after[worker] == s.workers[worker])
  {
    hide Reclaim, QueuedRows, FirstCovered, Candidates;
  }

  /** A known key answers with the task stored under it and adds nothing; a new task is answered as it was given. */
  lemma EnqueueAnswers(s: Store, task: Task, now: int)
    requires GoodTable(s.tasks)
    ensures forall id <- s.tasks :: s.tasks[id].task.key == task.key ==> Apply(s, Enqueue(task, now)) == (s, Answer(s.tasks[id].task))
    ensures (forall id <- s.tasks :: id != task.taskId && s.tasks[id].task.key != task.key) ==>
              && Apply(s, Enqueue(task, now)).1 == Answer(task)
              && Apply(s, Enqueue(task, now)).0.tasks.Keys == s.tasks.Keys + {task.taskId}
  {
    hide GoodRow;
  }

  // ---- What happens to a row ----------------------------------------------------------------------------------

  datatype Happening = Nothing | Inserted | Granted | Reclaimed | Beaten | Completed | Cancelled

  /** What an operation does to the row of a task. */
  ghost function Happens(s: Store, op: Op, id: string): Happening
  {
    var answered := Apply(s, op).1.Answer?;
    match op
    case Enqueue(task, _) => if task.taskId == id && id !in s.tasks && answered && Apply(s, op).1.task == task && id in Apply(s, op).0.tasks then Inserted else Nothing
    case Lease(_, worker, seconds, now, _) =>
      if answered && Apply(s, op).1.task.taskId == id then Granted
      else if seconds > 0 && Enabled(s.workers, worker) && id in s.tasks
              && (s.tasks[id].task.status == LEASED || s.tasks[id].task.status == RUNNING)
              && s.tasks[id].task.expires.Some? && s.tasks[id].task.expires.value < now then Reclaimed
      else Nothing
    case Heartbeat(_, taskId, _, _, _, _) => if taskId == id && answered then Beaten else Nothing
    case Complete(_, result, _) => if result.taskId == id && answered then Completed else Nothing
    case Cancel(taskId, _) => if taskId == id && answered then Cancelled else Nothing
    case Register(_, _, _) => Nothing
  }

  /** The row after it: field by field, with everything else as it was. */
  ghost predicate RowAfter(s: Store, op: Op, id: string, row: Row)
  {
    match Happens(s, op, id)
    case Nothing => id in s.tasks && row == s.tasks[id]
    case Inserted =>
      && op.Enqueue? && row.updatedAt == op.now
      && row.task == op.task.(status := QUEUED, owner := None, token := None, expires := None, attempts := 0, result := None)
    case Granted =>
      && op.Lease? && id in s.tasks && row.updatedAt == op.now
      && row.task == s.tasks[id].task.(status := LEASED, owner := Some(op.worker), token := Some(op.token),
                                       expires := Some(op.now + 1_000_000 * op.seconds), attempts := s.tasks[id].task.attempts + 1)
    case Reclaimed =>
      && op.Lease? && id in s.tasks && row.updatedAt == op.now
      && row.task == s.tasks[id].task.(status := QUEUED, owner := None, token := None, expires := None)
    case Beaten =>
      && op.Heartbeat? && id in s.tasks && row.updatedAt == op.now
      && row.task == s.tasks[id].task.(status := if op.running then RUNNING else LEASED, expires := Some(op.now + 1_000_000 * op.seconds))
    case Completed =>
      && op.Complete? && id in s.tasks && row.updatedAt == op.now
      && row.task == s.tasks[id].task.(status := op.result.status, result := Some(op.result), expires := None)
    case Cancelled =>
      && op.Cancel? && id in s.tasks && row.updatedAt == op.now && row.task == s.tasks[id].task.(status := TaskStatus.CANCELLED)
  }

  /** The row a lease selects was free when it came, or its lease was overdue. */
  ghost predicate Selectable(s: Store, op: Op, id: string)
    requires op.Lease?
  {
    && id in s.tasks && Reclaim(s.tasks, op.now)[id].task.status == QUEUED && s.tasks[id].task.taskId == id
    && (s.tasks[id].task.status == QUEUED ==>
          s.tasks[id].task.owner.None? && s.tasks[id].task.token.None? && s.tasks[id].task.expires.None?)
  }

  lemma SelectedRow(s: Store, op: Op) returns (selected: Option<string>)
    requires GoodTable(s.tasks) && op.Lease? && op.seconds > 0 && MayLease(s, op.worker)
    ensures selected.Some? ==> Selectable(s, op, selected.value)
    ensures Apply(s, op) == Grant(s.(tasks := Reclaim(s.tasks, op.now)), selected, op.worker, op.seconds, op.now, op.token)
  {
    hide QueuedRows, FirstCovered, Candidates, GoodTable, Grant;
    var tasks := Reclaim(s.tasks, op.now);
    var seen := Candidates(QueuedRows(tasks), op.limit);
    var capabilities := s.workers[op.worker].capabilities;
    FirstCoveredIsRow(tasks, capabilities, seen);
    selected := FirstCovered(tasks, capabilities, seen);
    if selected.Some? {
      RowIsQueued(tasks, selected.value);
      GoodRowOf(s.tasks, selected.value);
      QueuedIsFree(selected.value, s.tasks[selected.value]);
    }
  }

  lemma SelectedIsGranted(s: Store, op: Op, id: string)
    requires op.Lease? && Selectable(s, op, id)
    requires Apply(s, op) == Grant(s.(tasks := Reclaim(s.tasks, op.now)), Some(id), op.worker, op.seconds, op.now, op.token)
    ensures id in Apply(s, op).0.tasks && RowAfter(s, op, id, Apply(s, op).0.tasks[id])
    ensures Apply(s, op).1 == Answer(Apply(s, op).0.tasks[id].task)
  {
    hide Apply;
  }

  /** A row that a lease does not select is reclaimed when it is overdue, and otherwise as it was. */
  lemma OtherRow(s: Store, op: Op, id: string, selected: Option<string>)
    requires op.Lease? && op.seconds > 0 && Enabled(s.workers, op.worker) && id in s.tasks && selected != Some(id)
    requires selected.Some? ==> Selectable(s, op, selected.value)
    requires Apply(s, op) == Grant(s.(tasks := Reclaim(s.tasks, op.now)), selected, op.worker, op.seconds, op.now, op.token)
    ensures id in Apply(s, op).0.tasks && RowAfter(s, op, id, Apply(s, op).0.tasks[id]) && Happens(s, op, id) != Granted
  {
    hide Apply;
  }

  lemma LeaseRow(s: Store, op: Op, id: string)
    requires GoodTable(s.tasks) && op.Lease? && id in Apply(s, op).0.tasks
    ensures RowAfter(s, op, id, Apply(s, op).0.tasks[id])
    ensures Happens(s, op, id) == Granted ==> Apply(s, op).1.task == Apply(s, op).0.tasks[id].task
  {
    hide GoodTable;
    if op.seconds > 0 && MayLease(s, op.worker) {
      var selected := SelectedRow(s, op);
      hide Apply, RowAfter, Happens, Selectable;
      if selected == Some(id) {
        SelectedIsGranted(s, op, id);
      } else {
        OtherRow(s, op, id, selected);
      }
    } else {
      RefusedExactly(s, op);
      hide Apply;
    }
  }

  lemma QueuedIsFree(id: string, row: Row)
    requires GoodRow(id, row)
    ensures row.task.status == QUEUED ==> row.task.owner.None? && row.task.token.None? && row.task.expires.None?
  {
  }

  /** What happens to a row is all that changes it, and the operation that did it answers with the new row. */
  lemma RowChangesExactly(s: Store, op: Op, id: string)
    requires GoodTable(s.tasks) && id in Apply(s, op).0.tasks
    ensures RowAfter(s, op, id, Apply(s, op).0.tasks[id])
    ensures Happens(s, op, id) in {Granted, Beaten, Completed, Cancelled} ==> Apply(s, op).1 == Answer(Apply(s, op).0.tasks[id].task)
  {
    hide Reclaim, LeaseWithin, GoodTable;
    if op.Lease? {
      LeaseRow(s, op, id);
    }
  }

  // ---- Rows of a run ---------------------------------------------------------------------------------------------

  ghost function HappensAt(ops: seq<Op>, i: nat, id: string): Happening
    requires i < |ops|
  {
    Happens(After(ops, i), ops[i], id)
  }

  /** The latest of the first n operations that did something to the row. */
  ghost function Latest(ops: seq<Op>, n: nat, id: string): (r: Option<nat>)
    requires n <= |ops|
    ensures r.Some? ==> r.value < n && HappensAt(ops, r.value, id) != Nothing && forall i :: r.value < i < n ==> HappensAt(ops, i, id) == Nothing
    ensures r.None? ==> forall i :: 0 <= i < n ==> HappensAt(ops, i, id) == Nothing
  {
    if n == 0 then None
    else if HappensAt(ops, n - 1, id) != Nothing then Some(n - 1)
    else Latest(ops, n - 1, id)
  }

  /** What the latest operation on a row left: its status, its lease, its result, and its time stamp. */
  ghost predicate LeftBy(op: Op, what: Happening, row: Row)
  {
    var t := row.task;
    match what
    case Nothing => false
    case Inserted =>
      op.Enqueue? && t.status == QUEUED && t.owner == None && t.token == None && t.expires == None && t.result == None && row.updatedAt == op.now
    case Granted =>
      && op.Lease? && t.status == LEASED && t.owner == Some(op.worker) && t.token == Some(op.token)
      && t.expires == Some(op.now + 1_000_000 * op.seconds) && t.result == None && row.updatedAt == op.now
    case Reclaimed =>
      op.Lease? && t.status == QUEUED && t.owner == None && t.token == None && t.expires == None && t.result == None && row.updatedAt == op.now
    case Beaten =>
      && op.Heartbeat? && t.status == (if op.running then RUNNING else LEASED) && t.owner == Some(op.worker) && t.token == Some(op.token)
      && t.expires == Some(op.now + 1_000_000 * op.seconds) && t.result == None && row.updatedAt == op.now
    case Completed =>
      && op.Complete? && t.status == op.result.status && t.owner == Some(op.worker) && t.token == Some(op.result.token)
      && t.expires == None && t.result == Some(op.result) && row.updatedAt == op.now
    case Cancelled =>
      op.Cancel? && t.status == TaskStatus.CANCELLED && t.result == None && row.updatedAt == op.now
  }

  lemma StepLeaves(s: Store, op: Op, id: string)
    requires GoodTable(s.tasks) && id in Apply(s, op).0.tasks && Happens(s, op, id) != Nothing
    ensures LeftBy(op, Happens(s, op, id), Apply(s, op).0.tasks[id])
  {
    hide Apply, GoodTable;
    RowChangesExactly(s, op, id);
    RefusedExactly(s, op);
    if id in s.tasks {
      GoodRowOf(s.tasks, id);
    }
    GrantedWasFree(s, op, id);
  }

  lemma GrantedWasFree(s: Store, op: Op, id: string)
    requires GoodTable(s.tasks) && id in Apply(s, op).0.tasks
    ensures Happens(s, op, id) == Granted ==> id in s.tasks && s.tasks[id].task.result == None
  {
    hide Apply, GoodTable;
    if Happens(s, op, id) == Granted {
      RowChangesExactly(s, op, id);
      OperationKeeps(s, op);
      EvolvedRow(s.tasks, Apply(s, op).0.tasks, id);
      GoodRowOf(s.tasks, id);
    }
  }

  lemma EvolvedRow(before: Table, after: Table, id: string)
    requires TableEvolves(before, after) && id in before
    ensures id in after && RowEvolves(before[id], after[id])
  {
  }

  /** Every row of every run is what the latest operation on it left. */
  lemma {:induction false} RowIsHistory(ops: seq<Op>, n: nat, id: string)
    requires n <= |ops| && id in After(ops, n).tasks
    ensures var m := Latest(ops, n, id);
            m.Some? && LeftBy(ops[m.value], HappensAt(ops, m.value, id), After(ops, n).tasks[id])
  {
    hide Apply, GoodTable, LeftBy, Happens;
    var s, op := After(ops, n - 1), ops[n - 1];
    ReachableGood(ops, n - 1);
    RowChangesExactly(s, op, id);
    if Happens(s, op, id) != Nothing {
      StepLeaves(s, op, id);
    } else {
      RowIsHistory(ops, n - 1, id);
    }
  }

  /** A row is inserted once, and keeps what was enqueued: its type, requirements, payload, key and creation time. */
  lemma {:induction false} RowIsWhatWasEnqueued(ops: seq<Op>, n: nat, id: string) returns (i: nat)
    requires n <= |ops| && id in After(ops, n).tasks
    ensures i < n && HappensAt(ops, i, id) == Inserted && ops[i].Enqueue?
    ensures var t, given := After(ops, n).tasks[id].task, ops[i].task;
            && t.taskId == given.taskId == id && t.taskType == given.taskType && t.required == given.required
            && t.payload == given.payload && t.key == given.key && t.createdAt == given.createdAt
    ensures forall j :: 0 <= j < n && j != i ==> HappensAt(ops, j, id) != Inserted
  {
    hide Apply, GoodTable, GoodRow;
    var s, op := After(ops, n - 1), ops[n - 1];
    ReachableGood(ops, n - 1);
    RowChangesExactly(s, op, id);
    if id in s.tasks {
      i := RowIsWhatWasEnqueued(ops, n - 1, id);
    } else {
      i := n - 1;
      InsertionIsNew(s, op, id);
      NotInsertedBefore(ops, n - 1, id);
    }
  }

  lemma InsertionIsNew(s: Store, op: Op, id: string)
    requires Happens(s, op, id) == Inserted
    ensures op.Enqueue? && op.task.taskId == id && id !in s.tasks
  {
    hide Apply;
  }

  lemma {:induction false} NotInsertedBefore(ops: seq<Op>, n: nat, id: string)
    requires n <= |ops| && id !in After(ops, n).tasks
    ensures forall j :: 0 <= j < n ==> HappensAt(ops, j, id) != Inserted
  {
    hide Apply, TableEvolves;
    if n == 0 {
    } else {
      RowsPersist(ops, n - 1, n);
      LostNothing(After(ops, n - 1).tasks, After(ops, n).tasks, id);
      NotInsertedBefore(ops, n - 1, id);
    }
  }

  lemma LostNothing(before: Table, after: Table, id: string)
    requires TableEvolves(before, after) && id !in after
    ensures id !in before
  {
  }

  // ---- How long a lease lasts ------------------------------------------------------------------------------------------

  /** The lease of an active row runs until its length after the clock of the latest grant or heartbeat. */
  lemma ActiveUntil(ops: seq<Op>, n: nat, id: string)
    requires n <= |ops| && id in After(ops, n).tasks
    requires After(ops, n).tasks[id].task.status == LEASED || After(ops, n).tasks[id].task.status == RUNNING
    ensures var c := Latest(ops, n, id);
            && c.Some? && HappensAt(ops, c.value, id) in {Granted, Beaten} && (ops[c.value].Lease? || ops[c.value].Heartbeat?)
            && After(ops, n).tasks[id].task.expires == Some(ops[c.value].now + 1_000_000 * ops[c.value].seconds)
  {
    hide After, HappensAt;
    RowIsHistory(ops, n, id);
  }

  /** A lease by another token takes an active task exactly when its clock is past that time. */
  lemma LeaseLasts(ops: seq<Op>, k: nat, id: string, worker: string, token: string)
    requires k < |ops| && Leases(After(ops, k).tasks, id, worker, token)
    requires ops[k].Lease? && ops[k].seconds > 0 && Enabled(After(ops, k).workers, ops[k].worker) && ops[k].token != token
    ensures var c := Latest(ops, k, id);
            && c.Some? && (ops[c.value].Lease? || ops[c.value].Heartbeat?)
            && (Leases(After(ops, k + 1).tasks, id, worker, token) <==> ops[k].now <= ops[c.value].now + 1_000_000 * ops[c.value].seconds)
  {
    hide After, Apply, GoodTable, Latest;
    var s := After(ops, k);
    ActiveUntil(ops, k, id);
    ReachableGood(ops, k);
    NextStore(ops, k);
    LeaseEndsExactly(s, ops[k], id, worker, token);
    assert HoldsLease(s.tasks, id, worker, token);
  }

  lemma NextStore(ops: seq<Op>, k: nat)
    requires k < |ops|
    ensures After(ops, k + 1) == Apply(After(ops, k), ops[k]).0
  {
  }

  // ---- What a completion leaves ------------------------------------------------------------------------------------------

  /** A completion stores its result and its verdict for good, and answers with the finished task. */
  lemma CompletionIsKept(ops: seq<Op>, i: nat, j: nat, id: string)
    requires i < j <= |ops| && Completes(ops, i, id)
    ensures id in After(ops, j).tasks
    ensures var t := After(ops, j).tasks[id].task;
            && t.status == ops[i].result.status && t.result == Some(ops[i].result) && t.expires == None
            && ReplyAt(ops, i) == Answer(t)
  {
    hide GoodTable;
    AtMostOneCompletion(ops, i, j, id);
    AtMostOneCompletion(ops, i, i + 1, id);
    ReachableGood(ops, i);
    RowChangesExactly(After(ops, i), ops[i], id);
  }
}
