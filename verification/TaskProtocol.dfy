// Safety of the task table over every run: any interleaving of workers, expiry, reclaim and
// cancellation, with an arbitrary clock.
module TaskProtocol {
  import opened Common
  import opened TaskTable

  // ---- What every reachable table looks like --------------------------------------------------

  /** A row filed under id, in one of the six shapes a row can take. */
  ghost predicate GoodRow(id: string, row: Row)
  {
    var t := row.task;
    && t.taskId == id
    && t.status != EXPIRED
    && (t.owner.Some? <==> t.token.Some?)
    && (t.status == QUEUED ==> t.owner.None? && t.token.None? && t.expires.None?)
    && (Active(t.status) ==> t.owner.Some? && t.token.Some? && t.expires.Some?)
    && (t.result.Some? ==> Terminal(t.status) && t.result.value.taskId == id && t.token == Some(t.result.value.token))
    && (t.status == SUCCEEDED || t.status == FAILED ==> t.result.Some?)
  }

  ghost predicate GoodTable(tasks: Table)
  {
    && (forall id <- tasks :: GoodRow(id, tasks[id]))
    && (forall a, b :: a in tasks && b in tasks && tasks[a].task.key == tasks[b].task.key ==> a == b)
  }

  /** What no operation may change in a row, and what a finished row keeps entirely. */
  ghost predicate RowEvolves(before: Row, after: Row)
  {
    var a, b := before.task, after.task;
    && a.taskId == b.taskId && a.taskType == b.taskType && a.required == b.required
    && a.payload == b.payload && a.key == b.key && a.createdAt == b.createdAt
    && a.attempts <= b.attempts
    && (Terminal(a.status) ==> before == after)
  }

  ghost predicate TableEvolves(before: Table, after: Table)
  {
    forall id <- before :: id in after && RowEvolves(before[id], after[id])
  }

  lemma RequeuedGood(id: string, row: Row, now: int)
    requires GoodRow(id, row) && Overdue(row, now)
    ensures GoodRow(id, Requeued(row, now)) && RowEvolves(row, Requeued(row, now))
  {
  }

  lemma ReclaimGood(tasks: Table, now: int)
    requires GoodTable(tasks)
    ensures GoodTable(Reclaim(tasks, now)) && TableEvolves(tasks, Reclaim(tasks, now))
  {
    hide GoodRow;
    forall id | id in tasks && Overdue(tasks[id], now)
      ensures GoodRow(id, Requeued(tasks[id], now)) && RowEvolves(tasks[id], Requeued(tasks[id], now))
    {
      RequeuedGood(id, tasks[id], now);
    }
  }

  lemma ReplaceRowGood(tasks: Table, id: string, row: Row)
    requires GoodTable(tasks) && id in tasks && GoodRow(id, row) && RowEvolves(tasks[id], row)
    ensures GoodTable(tasks[id := row]) && TableEvolves(tasks, tasks[id := row])
  {
  }

  lemma InsertRowGood(tasks: Table, id: string, row: Row)
    requires GoodTable(tasks) && id !in tasks && GoodRow(id, row) && !HasKey(tasks, row.task.key)
    ensures GoodTable(tasks[id := row]) && TableEvolves(tasks, tasks[id := row])
  {
  }

  lemma LeaseGood(s: Store, limit: Option<nat>, worker: string, seconds: int, now: int, token: string)
    requires GoodTable(s.tasks)
    ensures var s' := LeaseWithin(s, limit, worker, seconds, now, token).0;
            GoodTable(s'.tasks) && TableEvolves(s.tasks, s'.tasks)
  {
    hide Reclaim, GoodTable, TableEvolves, QueuedRows;
    EvolvesReflexive(s.tasks);
    if seconds > 0 && MayLease(s, worker) {
      var tasks := Reclaim(s.tasks, now);
      var rows := QueuedRows(tasks);
      var seen := Candidates(rows, limit);
      var capabilities := s.workers[worker].capabilities;
      ReclaimGood(s.tasks, now);
      FirstCoveredIsRow(tasks, capabilities, seen);
      var selected := FirstCovered(tasks, capabilities, seen);
      if selected.Some? {
        RowIsQueued(tasks, selected.value);
        GoodRowOf(tasks, selected.value);
        var row := Leased(tasks[selected.value], worker, seconds, now, token);
        ReplaceRowGood(tasks, selected.value, row);
        EvolvesTransitive(s.tasks, tasks, tasks[selected.value := row]);
      }
    }
  }

  lemma RowIsQueued(tasks: Table, id: string)
    requires id in QueuedRows(tasks)
    ensures id in tasks && tasks[id].task.status == QUEUED
  {
    SortedMembers(tasks, QueuedIds(tasks));
  }

  lemma GoodRowOf(tasks: Table, id: string)
    requires GoodTable(tasks) && id in tasks
    ensures GoodRow(id, tasks[id])
  {
  }

  /** Every operation keeps the table good, loses no row, and never touches a finished one. */
  lemma OperationKeeps(s: Store, op: Op)
    requires GoodTable(s.tasks)
    ensures GoodTable(Apply(s, op).0.tasks) && TableEvolves(s.tasks, Apply(s, op).0.tasks)
  {
    hide LeaseWithin, GoodTable, TableEvolves, HasKey;
    var tasks' := Apply(s, op).0.tasks;
    EvolvesReflexive(s.tasks);
    match op
    case Register(_, _, _) =>
    case Enqueue(task, now) =>
      if !HasKey(s.tasks, task.key) && task.taskId !in s.tasks {
        InsertRowGood(s.tasks, task.taskId, FreshRow(task, now));
      }
    case Lease(limit, worker, seconds, now, token) =>
      LeaseGood(s, limit, worker, seconds, now, token);
    case Heartbeat(worker, taskId, token, _, _, _) =>
      if tasks' != s.tasks {
        GoodRowOf(s.tasks, taskId);
        ReplaceRowGood(s.tasks, taskId, tasks'[taskId]);
      }
    case Complete(worker, result, _) =>
      if tasks' != s.tasks {
        GoodRowOf(s.tasks, result.taskId);
        ReplaceRowGood(s.tasks, result.taskId, tasks'[result.taskId]);
      }
    case Cancel(taskId, _) =>
      if tasks' != s.tasks {
        GoodRowOf(s.tasks, taskId);
        ReplaceRowGood(s.tasks, taskId, tasks'[taskId]);
      }
  }

  lemma EvolvesReflexive(tasks: Table)
    ensures TableEvolves(tasks, tasks)
  {
  }

  lemma {:induction false} ReachableGood(ops: seq<Op>, n: nat)
    requires n <= |ops|
    ensures GoodTable(After(ops, n).tasks)
  {
    if n == 0 {
    } else {
      ReachableGood(ops, n - 1);
      OperationKeeps(After(ops, n - 1), ops[n - 1]);
    }
  }

  /** Between any two points of a run no row is lost and no finished row changes. */
  lemma {:induction false} RowsPersist(ops: seq<Op>, i: nat, j: nat)
    requires i <= j <= |ops|
    ensures TableEvolves(After(ops, i).tasks, After(ops, j).tasks)
  {
    if i == j {
    } else {
      RowsPersist(ops, i, j - 1);
      ReachableGood(ops, j - 1);
      OperationKeeps(After(ops, j - 1), ops[j - 1]);
      EvolvesTransitive(After(ops, i).tasks, After(ops, j - 1).tasks, After(ops, j).tasks);
    }
  }

  lemma EvolvesTransitive(a: Table, b: Table, c: Table)
    requires TableEvolves(a, b) && TableEvolves(b, c)
    ensures TableEvolves(a, c)
  {
  }

  // ---- The history of leases -------------------------------------------------------------------

  /** Operation i handed the task out. */
  ghost predicate Grants(ops: seq<Op>, i: nat, id: string)
    requires i < |ops|
  {
    ops[i].Lease? && ReplyAt(ops, i).Answer? && ReplyAt(ops, i).task.taskId == id
  }

  ghost function GrantCount(ops: seq<Op>, n: nat, id: string): nat
    requires n <= |ops|
  {
    if n == 0 then 0 else GrantCount(ops, n - 1, id) + if Grants(ops, n - 1, id) then 1 else 0
  }

  /** The latest of the first n operations that handed the task out. */
  ghost function LatestGrant(ops: seq<Op>, n: nat, id: string): (r: Option<nat>)
    requires n <= |ops|
    ensures r.Some? ==> r.value < n
  {
    if n == 0 then None
    else if Grants(ops, n - 1, id) then Some(n - 1)
    else LatestGrant(ops, n - 1, id)
  }

  lemma {:induction false} LatestGrantIs(ops: seq<Op>, n: nat, id: string)
    requires n <= |ops|
    ensures var r := LatestGrant(ops, n, id);
            && (r.Some? ==> r.value < n && Grants(ops, r.value, id) && forall i :: r.value < i < n ==> !Grants(ops, i, id))
            && (r.None? ==> forall i :: 0 <= i < n ==> !Grants(ops, i, id))
  {
    hide Grants;
    if n == 0 {
    } else {
      LatestGrantIs(ops, n - 1, id);
    }
  }

  /** What one operation can do to one row as far as its lease is concerned. */
  lemma LeaseEffect(s: Store, op: Op, id: string)
    requires GoodTable(s.tasks) && id in Apply(s, op).0.tasks
    ensures var (s', reply) := Apply(s, op);
            var after := s'.tasks[id].task;
            if op.Lease? && reply.Answer? && reply.task.taskId == id then
              id in s.tasks && after.owner == Some(op.worker) && after.token == Some(op.token)
              && after.attempts == s.tasks[id].task.attempts + 1 && after.status == LEASED && reply.task == after
            else if id in s.tasks then
              && after.attempts == s.tasks[id].task.attempts
              && ((after.owner == s.tasks[id].task.owner && after.token == s.tasks[id].task.token)
                  || (op.Lease? && after.status == QUEUED && after.owner == None && after.token == None))
            else after.owner == None && after.token == None && after.attempts == 0
  {
    hide LeaseWithin, GoodRow;
    match op
    case Lease(limit, worker, seconds, now, token) =>
      LeaseEffectOnRow(s, limit, worker, seconds, now, token, id);
    case _ =>
  }

  lemma ReclaimRow(tasks: Table, now: int, id: string)
    requires GoodTable(tasks) && id in tasks
    ensures var row := Reclaim(tasks, now)[id];
            row == tasks[id] || (row.task.status == QUEUED && row.task.owner == None && row.task.token == None
                                 && row.task.attempts == tasks[id].task.attempts)
  {
  }

  lemma LeaseEffectOnRow(s: Store, limit: Option<nat>, worker: string, seconds: int, now: int, token: string, id: string)
    requires GoodTable(s.tasks) && id in LeaseWithin(s, limit, worker, seconds, now, token).0.tasks
    ensures var (s', reply) := LeaseWithin(s, limit, worker, seconds, now, token);
            var after := s'.tasks[id].task;
            && id in s.tasks
            && if reply.Answer? && reply.task.taskId == id then
                 after.owner == Some(worker) && after.token == Some(token) && after.status == LEASED && reply.task == after
                 && after.attempts == s.tasks[id].task.attempts + 1
               else
                 after.attempts == s.tasks[id].task.attempts
                 && ((after.owner == s.tasks[id].task.owner && after.token == s.tasks[id].task.token)
                     || (after.status == QUEUED && after.owner == None && after.token == None))
  {
    hide QueuedRows, FirstCovered, Candidates, GoodTable;
    if seconds > 0 && MayLease(s, worker) {
      var tasks := Reclaim(s.tasks, now);
      var rows := Candidates(QueuedRows(tasks), limit);
      ReclaimGood(s.tasks, now);
      assert tasks.Keys == s.tasks.Keys;
      FirstCoveredIsRow(tasks, s.workers[worker].capabilities, rows);
      var selected := FirstCovered(tasks, s.workers[worker].capabilities, rows);
      if selected.Some? {
        GoodRowOf(tasks, selected.value);
      }
      ReclaimRow(s.tasks, now, id);
    } else {
      assert LeaseWithin(s, limit, worker, seconds, now, token).0 == s;
    }
  }

  /**
    attempts counts the leases granted, and whoever a row names as its lessee is the worker of the
    latest grant, with the token of that grant.
   */
  lemma {:induction false} HistoryInvariant(ops: seq<Op>, n: nat, id: string)
    requires n <= |ops| && id in After(ops, n).tasks
    ensures var t := After(ops, n).tasks[id].task;
            && t.attempts == GrantCount(ops, n, id)
            && (t.token.Some? ==>
                  var i := LatestGrant(ops, n, id);
                  i.Some? && Grants(ops, i.value, id) && t.token == Some(ops[i.value].token) && t.owner == Some(ops[i.value].worker))
  {
    hide Apply, GoodTable;
    if n == 0 {
    } else {
      LatestGrantIs(ops, n, id);
      ReachableGood(ops, n - 1);
      LeaseEffect(After(ops, n - 1), ops[n - 1], id);
      if id in After(ops, n - 1).tasks {
        HistoryInvariant(ops, n - 1, id);
      } else {
        NoGrantBeforeEnqueue(ops, n - 1, id);
      }
    }
  }

  lemma {:induction false} NoGrantBeforeEnqueue(ops: seq<Op>, n: nat, id: string)
    requires n <= |ops| && id !in After(ops, n).tasks
    ensures GrantCount(ops, n, id) == 0
  {
    if n == 0 {
    } else {
      RowsPersist(ops, n - 1, n);
      NoGrantBeforeEnqueue(ops, n - 1, id);
      if Grants(ops, n - 1, id) {
        ReachableGood(ops, n - 1);
        GrantIsStored(After(ops, n - 1), ops[n - 1]);
      }
    }
  }

  lemma GrantIsStored(s: Store, op: Op)
    requires GoodTable(s.tasks) && op.Lease? && Apply(s, op).1.Answer?
    ensures var (s', reply) := Apply(s, op); reply.task.taskId in s'.tasks && s'.tasks[reply.task.taskId].task == reply.task
  {
    hide QueuedRows, FirstCovered, Candidates;
    var tasks := Reclaim(s.tasks, op.now);
    var seen := Candidates(QueuedRows(tasks), op.limit);
    ReclaimGood(s.tasks, op.now);
    FirstCoveredIsRow(tasks, s.workers[op.worker].capabilities, seen);
    var selected := FirstCovered(tasks, s.workers[op.worker].capabilities, seen);
    GoodRowOf(tasks, selected.value);
  }

  // ---- Fencing -----------------------------------------------------------------------------------

  /** Every lease attempt draws a token no other one draws. */
  ghost predicate FreshTokens(ops: seq<Op>)
  {
    forall i, j :: 0 <= i < j < |ops| && ops[i].Lease? && ops[j].Lease? ==> ops[i].token != ops[j].token
  }

  /** Once a lease is lost its token never comes back. */
  lemma {:induction false} TokenNeverReturns(ops: seq<Op>, i: nat, j: nat, k: nat, id: string)
    requires FreshTokens(ops) && i < j <= k <= |ops| && ops[i].Lease?
    requires id in After(ops, j).tasks && After(ops, j).tasks[id].task.token != Some(ops[i].token)
    ensures id in After(ops, k).tasks && After(ops, k).tasks[id].task.token != Some(ops[i].token)
  {
    hide Apply, GoodTable;
    if j == k {
    } else {
      TokenNeverReturns(ops, i, j, k - 1, id);
      RowsPersist(ops, k - 1, k);
      ReachableGood(ops, k - 1);
      LeaseEffect(After(ops, k - 1), ops[k - 1], id);
    }
  }

  /** A token is only ever seen on the row it was granted for. */
  lemma TokenBelongsToItsTask(ops: seq<Op>, i: nat, n: nat, id: string)
    requires FreshTokens(ops) && i < |ops| && ops[i].Lease? && n <= |ops|
    requires id in After(ops, n).tasks && After(ops, n).tasks[id].task.token == Some(ops[i].token)
    ensures i < n && Grants(ops, i, id) && LatestGrant(ops, n, id) == Some(i)
  {
    hide Apply, After, ReplyAt;
    HistoryInvariant(ops, n, id);
    LatestGrantIs(ops, n, id);
    var g := LatestGrant(ops, n, id);
    assert ops[g.value].token == ops[i].token;
  }

  /** Operation k presents the given token, as a heartbeat or as a completion. */
  ghost predicate Presents(op: Op, token: string)
  {
    (op.Heartbeat? && op.token == token) || (op.Complete? && op.result.token == token)
  }

  /** The row is back in the queue, or already leased again under another token. */
  ghost predicate Reclaimed(tasks: Table, id: string, token: string)
  {
    id in tasks && (tasks[id].task.status == QUEUED || tasks[id].task.token != Some(token))
  }

  /**
    Fencing: after the task granted at i has been reclaimed at j,
    no heartbeat and no completion bearing that token is ever accepted again, for any task and from
    any worker, and none changes anything.
   */
  lemma Fencing(ops: seq<Op>, i: nat, j: nat, k: nat, id: string)
    requires FreshTokens(ops) && i < j <= k < |ops|
    requires Grants(ops, i, id) && Reclaimed(After(ops, j).tasks, id, ops[i].token)
    requires Presents(ops[k], ops[i].token)
    ensures ReplyAt(ops, k) == PermissionError || ReplyAt(ops, k) == ValueError
    ensures After(ops, k + 1) == After(ops, k)
  {
    ReachableGood(ops, j);
    TokenNeverReturns(ops, i, j, k, id);
    var other := if ops[k].Heartbeat? then ops[k].taskId else ops[k].result.taskId;
    if other in After(ops, k).tasks && After(ops, k).tasks[other].task.token == Some(ops[i].token) {
      TokenBelongsToItsTask(ops, i, k, other);
    }
  }

  /** Operation i completed the task. */
  ghost predicate Completes(ops: seq<Op>, i: nat, id: string)
    requires i < |ops|
  {
    ops[i].Complete? && ReplyAt(ops, i).Answer? && ops[i].result.taskId == id
  }

  /** An accepted completion comes from the worker and with the token of the task's latest lease. */
  lemma CompletionIsFromLatestLease(ops: seq<Op>, k: nat, id: string)
    requires k < |ops| && Completes(ops, k, id)
    ensures var i := LatestGrant(ops, k, id);
            && i.Some? && Grants(ops, i.value, id) && ops[i.value].worker == ops[k].worker && ops[i.value].token == ops[k].result.token
            && forall j :: i.value < j < k ==> !Grants(ops, j, id)
  {
    HistoryInvariant(ops, k, id);
    LatestGrantIs(ops, k, id);
  }

  /** No task accepts two completions, and nothing changes its row after the one. */
  lemma AtMostOneCompletion(ops: seq<Op>, i: nat, j: nat, id: string)
    requires i < j <= |ops| && Completes(ops, i, id)
    ensures id in After(ops, j).tasks && After(ops, j).tasks[id] == After(ops, i + 1).tasks[id]
    ensures j < |ops| ==> !Completes(ops, j, id)
  {
    RowsPersist(ops, i + 1, j);
  }

  // ---- When exactly a lease ends ----------------------------------------------------------------------

  /**
    What ends a lease of the task: a lease by anyone who may, with a clock past the expiry; a
    cancellation; or the completion that the lease itself allows.
   */
  ghost predicate Ends(s: Store, op: Op, id: string)
  {
    match op
    case Lease(_, worker, seconds, now, _) => id in s.tasks && seconds > 0 && MayLease(s, worker) && Overdue(s.tasks[id], now)
    case Cancel(taskId, _) => taskId == id
    case Complete(worker, result, _) => result.taskId == id && HoldsLease(s.tasks, id, worker, result.token)
    case _ => false
  }

  lemma LeaseKeepsOthers(s: Store, op: Op, id: string)
    requires GoodTable(s.tasks) && op.Lease? && id in s.tasks && Active(s.tasks[id].task.status) && !Ends(s, op, id)
    ensures id in Apply(s, op).0.tasks && Apply(s, op).0.tasks[id] == s.tasks[id]
  {
    hide QueuedRows, FirstCovered, Candidates, GoodTable;
    if op.seconds > 0 && MayLease(s, op.worker) {
      var tasks := Reclaim(s.tasks, op.now);
      var seen := Candidates(QueuedRows(tasks), op.limit);
      var capabilities := s.workers[op.worker].capabilities;
      FirstCoveredIsRow(tasks, capabilities, seen);
      var selected := FirstCovered(tasks, capabilities, seen);
      if selected.Some? {
        RowIsQueued(tasks, selected.value);
      }
    }
  }

  /** One operation ends a lease if and only if it is one of those that end it. */
  lemma LeaseEndsExactly(s: Store, op: Op, id: string, worker: string, token: string)
    requires GoodTable(s.tasks) && HoldsLease(s.tasks, id, worker, token)
    requires op.Lease? ==> op.token != token
    ensures HoldsLease(Apply(s, op).0.tasks, id, worker, token) <==> !Ends(s, op, id)
  {
    hide LeaseWithin, GoodTable;
    if op.Lease? {
      if Ends(s, op, id) {
        OverdueIsTaken(s, op, id);
      } else {
        LeaseKeepsOthers(s, op, id);
      }
    }
  }

  lemma OverdueIsTaken(s: Store, op: Op, id: string)
    requires GoodTable(s.tasks) && op.Lease? && Ends(s, op, id)
    ensures var tasks := Apply(s, op).0.tasks; id in tasks && (tasks[id].task.token == None || tasks[id].task.token == Some(op.token))
  {
    hide QueuedRows, FirstCovered, Candidates, GoodTable;
    var tasks := Reclaim(s.tasks, op.now);
    FirstCoveredIsRow(tasks, s.workers[op.worker].capabilities, Candidates(QueuedRows(tasks), op.limit));
  }

  /** A lease that ended does not come back under its old token. */
  lemma LeaseStaysEnded(s: Store, op: Op, id: string, worker: string, token: string)
    requires GoodTable(s.tasks) && id in s.tasks && !HoldsLease(s.tasks, id, worker, token)
    requires op.Lease? ==> op.token != token
    ensures !HoldsLease(Apply(s, op).0.tasks, id, worker, token)
  {
    hide Apply, GoodTable, GoodRow;
    OperationKeeps(s, op);
    GoodRowOf(s.tasks, id);
    if id in Apply(s, op).0.tasks {
      LeaseEffect(s, op, id);
      if s.tasks[id].task.token == Some(token) && s.tasks[id].task.owner == Some(worker) {
        EndedIsTerminal(id, s.tasks[id]);
      }
    }
  }

  lemma EndedIsTerminal(id: string, row: Row)
    requires GoodRow(id, row) && row.task.token.Some? && !Active(row.task.status)
    ensures Terminal(row.task.status)
  {
  }

  lemma GrantHoldsLease(s: Store, op: Op, id: string)
    requires GoodTable(s.tasks) && op.Lease? && Apply(s, op).1.Answer? && Apply(s, op).1.task.taskId == id
    ensures HoldsLease(Apply(s, op).0.tasks, id, op.worker, op.token)
  {
    hide LeaseWithin;
    GrantIsStored(s, op);
    LeaseEffect(s, op, id);
  }

  /** No operation between i and k ended the lease that operation i granted. */
  ghost predicate Unended(ops: seq<Op>, i: nat, k: nat, id: string)
    requires k <= |ops|
  {
    forall m :: i < m < k ==> !Ends(After(ops, m), ops[m], id)
  }

  /** A granted lease is good at a later point if and only if nothing in between ended it; its expiry alone does not. */
  lemma {:induction false} LeaseStandsExactly(ops: seq<Op>, i: nat, k: nat, id: string)
    requires FreshTokens(ops) && i < k <= |ops| && Grants(ops, i, id)
    ensures id in After(ops, k).tasks
    ensures HoldsLease(After(ops, k).tasks, id, ops[i].worker, ops[i].token) <==> Unended(ops, i, k, id)
  {
    hide Apply, GoodTable, HoldsLease, Ends;
    ReachableGood(ops, k - 1);
    if k == i + 1 {
      GrantHoldsLease(After(ops, i), ops[i], id);
      GrantIsStored(After(ops, i), ops[i]);
    } else {
      LeaseStandsExactly(ops, i, k - 1, id);
      RowsPersist(ops, k - 1, k);
      var s, op := After(ops, k - 1), ops[k - 1];
      if HoldsLease(s.tasks, id, ops[i].worker, ops[i].token) {
        LeaseEndsExactly(s, op, id, ops[i].worker, ops[i].token);
      } else {
        LeaseStaysEnded(s, op, id, ops[i].worker, ops[i].token);
      }
    }
  }

  /**
    So a heartbeat, and a completion, with the token of a grant are accepted exactly as long as nothing
    ended the lease, however late they come.
   */
  lemma LateCallsAreAccepted(ops: seq<Op>, i: nat, k: nat, id: string)
    requires FreshTokens(ops) && i < k < |ops| && Grants(ops, i, id)
    ensures ops[k].Heartbeat? && ops[k].taskId == id && ops[k].worker == ops[i].worker && ops[k].token == ops[i].token
      ==> (ReplyAt(ops, k).Answer? <==> ops[k].seconds > 0 && Unended(ops, i, k, id))
    ensures ops[k].Complete? && ops[k].result.taskId == id && ops[k].worker == ops[i].worker && ops[k].result.token == ops[i].token
      ==> (ReplyAt(ops, k).Answer? <==> Unended(ops, i, k, id))
  {
    hide Unended;
    LeaseStandsExactly(ops, i, k, id);
  }
}
