// The two stores as the programs run them: methods that update rows of the table in place,
// each inside one transaction.
module TaskStore {
  import opened Common
  import opened TaskTable
  import opened TaskProtocol
  import opened TaskSelection

  /** The local store. */
  class StateStore {
    var tasks: Table
    var workers: map<string, Registration>

    constructor ()
      ensures State() == EMPTY && Valid()
    {
      tasks, workers := map[], map[];
    }

    function State(): Store
      reads this
    {
      Store(tasks, workers)
    }

    ghost predicate Valid()
      reads this
    {
      GoodTable(tasks)
    }

    method RegisterWorker(worker: string, capabilities: set<string>)
      requires Valid()
      modifies this`workers
      ensures Valid() && State() == Apply(old(State()), Register(worker, capabilities, false)).0
    {
      var enabled := true;
      if worker in workers {
        enabled := workers[worker].enabled;
      }
      workers := workers[worker := Registration(capabilities, enabled)];
    }

    /** An enqueue whose key is known answers with the row that has it; a known task id alone is an error. */
    method EnqueueTask(task: Task, now: int) returns (reply: Reply)
      requires Valid()
      modifies this`tasks
      ensures Valid() && (State(), reply) == Apply(old(State()), Enqueue(task, now))
    {
      OperationKeeps(State(), Enqueue(task, now));
      if exists id <- tasks.Keys :: tasks[id].task.key == task.key {
        var id :| id in tasks && tasks[id].task.key == task.key;
        reply := Answer(tasks[id].task);
      } else if task.taskId in tasks {
        reply := IntegrityError;
      } else {
        tasks := tasks[task.taskId := FreshRow(task, now)];
        reply := Answer(task);
      }
    }

    method LeaseTask(worker: string, seconds: int, now: int, token: string) returns (reply: Reply)
      requires Valid()
      modifies this`tasks
      ensures Valid() && (State(), reply) == Apply(old(State()), Lease(None, worker, seconds, now, token))
    {
      hide GoodTable, Reclaim, QueuedRows;
      OperationKeeps(State(), Lease(None, worker, seconds, now, token));
      if seconds <= 0 {
        return ValueError;
      }
      if worker !in workers || !workers[worker].enabled {
        return PermissionError;
      }
      var capabilities := workers[worker].capabilities;
      tasks := Reclaim(tasks, now);
      var rows := QueuedRows(tasks);
      var selected := SelectRow(tasks, capabilities, rows);
      match selected
      case None =>
        reply := NoTask;
      case Some(id) =>
        tasks := tasks[id := Leased(tasks[id], worker, seconds, now, token)];
        reply := Answer(tasks[id].task);
    }

    method HeartbeatTask(worker: string, taskId: string, token: string, running: bool, seconds: int, now: int) returns (reply: Reply)
      requires Valid()
      modifies this`tasks
      ensures Valid() && (State(), reply) == Apply(old(State()), Heartbeat(worker, taskId, token, running, seconds, now))
    {
      OperationKeeps(State(), Heartbeat(worker, taskId, token, running, seconds, now));
      if seconds <= 0 {
        return ValueError;
      }
      if !HoldsLease(tasks, taskId, worker, token) {
        return PermissionError;
      }
      var row := tasks[taskId];
      tasks := tasks[taskId := Row(row.task.(status := if running then RUNNING else LEASED,
                                             expires := Some(Expiry(now, seconds))), now)];
      reply := Answer(tasks[taskId].task);
    }

    method CompleteTask(worker: string, result: WorkerResult, now: int) returns (reply: Reply)
      requires Valid()
      modifies this`tasks
      ensures Valid() && (State(), reply) == Apply(old(State()), Complete(worker, result, now))
    {
      OperationKeeps(State(), Complete(worker, result, now));
      if !HoldsLease(tasks, result.taskId, worker, result.token) {
        return PermissionError;
      }
      var row := tasks[result.taskId];
      tasks := tasks[result.taskId := Row(row.task.(status := result.status, result := Some(result), expires := None), now)];
      reply := Answer(tasks[result.taskId].task);
    }

    method CancelTask(taskId: string, now: int) returns (reply: Reply)
      requires Valid()
      modifies this`tasks
      ensures Valid() && (State(), reply) == Apply(old(State()), Cancel(taskId, now))
    {
      OperationKeeps(State(), Cancel(taskId, now));
      if taskId !in tasks || (tasks[taskId].task.status != QUEUED && !Active(tasks[taskId].task.status)) {
        return ValueError;
      }
      var row := tasks[taskId];
      tasks := tasks[taskId := Row(row.task.(status := CANCELLED), now)];
      reply := Answer(tasks[taskId].task);
    }
  }

  /** The first row of a query result that the capabilities cover. */
  method SelectRow(tasks: Table, capabilities: set<string>, rows: seq<string>) returns (selected: Option<string>)
    requires forall i :: 0 <= i < |rows| ==> rows[i] in tasks
    ensures selected == FirstCovered(tasks, capabilities, rows)
    ensures selected.Some? ==> selected.value in tasks
  {
    FirstCoveredIsRow(tasks, capabilities, rows);
    var i := 0;
    while i < |rows|
      invariant 0 <= i <= |rows|
      invariant FirstCovered(tasks, capabilities, rows) == FirstCovered(tasks, capabilities, rows[i..])
    {
      if tasks[rows[i]].task.required <= capabilities {
        return Some(rows[i]);
      }
      assert rows[i..][1..] == rows[i + 1..];
      i := i + 1;
    }
    return None;
  }

  /** The server store, over the same table. */
  class ServerStateStore {
    var tasks: Table
    var workers: map<string, Registration>

    constructor ()
      ensures State() == EMPTY && GoodTable(tasks)
    {
      tasks, workers := map[], map[];
    }

    function State(): Store
      reads this
    {
      Store(tasks, workers)
    }

    method RegisterWorker(worker: string, capabilities: set<string>)
      modifies this`workers
      ensures State() == Apply(old(State()), Register(worker, capabilities, true)).0
    {
      workers := workers[worker := Registration(capabilities, true)];
    }

    method EnqueueTask(task: Task, now: int) returns (reply: Reply)
      requires GoodTable(tasks)
      modifies this`tasks
      ensures GoodTable(tasks) && (State(), reply) == Apply(old(State()), Enqueue(task, now))
    {
      OperationKeeps(State(), Enqueue(task, now));
      if id :| id in tasks && tasks[id].task.key == task.key {
        return Answer(tasks[id].task);
      }
      if task.taskId in tasks {
        return IntegrityError;
      }
      tasks := tasks[task.taskId := FreshRow(task, now)];
      reply := Answer(task);
    }

    /** The answer is built from the selected row and the values written, not read back. */
    method LeaseTask(worker: string, seconds: int, now: int, token: string) returns (reply: Reply)
      requires GoodTable(tasks)
      modifies this`tasks
      ensures GoodTable(tasks)
      ensures (State(), reply) == Apply(old(State()), Lease(Some(CANDIDATES), worker, seconds, now, token))
    {
      hide GoodTable, Reclaim, QueuedRows;
      LeaseGood(State(), Some(CANDIDATES), worker, seconds, now, token);
      if seconds <= 0 {
        return ValueError;
      }
      if worker !in workers || !workers[worker].enabled {
        return PermissionError;
      }
      tasks := Reclaim(tasks, now);
      var candidates := QueuedRows(tasks);
      if |candidates| > CANDIDATES {
        candidates := candidates[..CANDIDATES];
      }
      var selected := SelectRow(tasks, workers[worker].capabilities, candidates);
      match selected
      case None =>
        reply := NoTask;
      case Some(id) =>
        var row := tasks[id];
        tasks := tasks[id := Leased(row, worker, seconds, now, token)];
        var leased := row.task;
        leased := leased.(status := LEASED, owner := Some(worker), token := Some(token));
        leased := leased.(expires := Some(Expiry(now, seconds)), attempts := row.task.attempts + 1);
        reply := Answer(leased);
    }

    method HeartbeatTask(worker: string, taskId: string, token: string, running: bool, seconds: int, now: int) returns (reply: Reply)
      requires GoodTable(tasks)
      modifies this`tasks
      ensures GoodTable(tasks) && (State(), reply) == Apply(old(State()), Heartbeat(worker, taskId, token, running, seconds, now))
    {
      OperationKeeps(State(), Heartbeat(worker, taskId, token, running, seconds, now));
      if seconds <= 0 {
        return ValueError;
      }
      if !HoldsLease(tasks, taskId, worker, token) {
        return PermissionError;
      }
      var beaten := tasks[taskId].task.(status := if running then RUNNING else LEASED, expires := Some(Expiry(now, seconds)));
      tasks := tasks[taskId := Row(beaten, now)];
      reply := Answer(beaten);
    }

    method CompleteTask(worker: string, result: WorkerResult, now: int) returns (reply: Reply)
      requires GoodTable(tasks)
      modifies this`tasks
      ensures GoodTable(tasks) && (State(), reply) == Apply(old(State()), Complete(worker, result, now))
    {
      OperationKeeps(State(), Complete(worker, result, now));
      if !HoldsLease(tasks, result.taskId, worker, result.token) {
        return PermissionError;
      }
      var finished := tasks[result.taskId].task.(status := result.status, result := Some(result), expires := None);
      tasks := tasks[result.taskId := Row(finished, now)];
      reply := Answer(finished);
    }

    method CancelTask(taskId: string, now: int) returns (reply: Reply)
      requires GoodTable(tasks)
      modifies this`tasks
      ensures GoodTable(tasks) && (State(), reply) == Apply(old(State()), Cancel(taskId, now))
    {
      OperationKeeps(State(), Cancel(taskId, now));
      if taskId !in tasks || Terminal(tasks[taskId].task.status) || tasks[taskId].task.status == EXPIRED {
        return ValueError;
      }
      var cancelled := tasks[taskId].task.(status := CANCELLED);
      tasks := tasks[taskId := Row(cancelled, now)];
      reply := Answer(cancelled);
    }
  }
}
