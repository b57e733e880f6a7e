// Which task a lease hands out, and when the server store, which looks at the first
// twenty queued rows only, agrees with the local one.
module TaskSelection {
  import opened Common
  import opened TaskTable
  import opened TaskProtocol

  const CANDIDATES := 20

  lemma {:induction false} FirstCoveredIsFirst(tasks: Table, capabilities: set<string>, rows: seq<string>)
    requires forall i :: 0 <= i < |rows| ==> rows[i] in tasks
    ensures var f := FirstCovered(tasks, capabilities, rows);
            && (f.None? <==> forall i :: 0 <= i < |rows| ==> !Covered(tasks, capabilities, rows[i]))
            && (f.Some? ==> exists i :: 0 <= i < |rows| && rows[i] == f.value && Covered(tasks, capabilities, rows[i])
                              && forall j :: 0 <= j < i ==> !Covered(tasks, capabilities, rows[j]))
  {
    if rows != [] && !Covered(tasks, capabilities, rows[0]) {
      var rest := rows[1..];
      FirstCoveredIsFirst(tasks, capabilities, rest);
      var f := FirstCovered(tasks, capabilities, rest);
      if f.Some? {
        var i :| 0 <= i < |rest| && rest[i] == f.value && Covered(tasks, capabilities, rest[i])
                 && forall j :: 0 <= j < i ==> !Covered(tasks, capabilities, rest[j]);
        assert rows[i + 1] == f.value;
        forall j | 0 <= j < i + 1
          ensures !Covered(tasks, capabilities, rows[j])
        {
          assert j > 0 ==> rows[j] == rest[j - 1];
        }
      } else {
        forall i | 0 <= i < |rows|
          ensures !Covered(tasks, capabilities, rows[i])
        {
          assert i > 0 ==> rows[i] == rest[i - 1];
        }
      }
    }
  }

  /** A queued task the worker may take. */
  ghost predicate Takeable(tasks: Table, capabilities: set<string>, id: string)
  {
    id in tasks && tasks[id].task.status == QUEUED && Covered(tasks, capabilities, id)
  }

  lemma TakeableIsRow(tasks: Table, capabilities: set<string>, id: string)
    requires Takeable(tasks, capabilities, id)
    ensures exists k :: 0 <= k < |QueuedRows(tasks)| && QueuedRows(tasks)[k] == id
  {
    SortedMembers(tasks, QueuedIds(tasks));
    assert id in QueuedRows(tasks);
  }

  /** The first covered row of the queue is the least takeable task. */
  lemma ChosenIsLeast(tasks: Table, capabilities: set<string>)
    ensures var f := FirstCovered(tasks, capabilities, QueuedRows(tasks));
            && (f.None? <==> forall id :: !Takeable(tasks, capabilities, id))
            && (f.Some? ==> Takeable(tasks, capabilities, f.value)
                            && forall id :: Takeable(tasks, capabilities, id) && id != f.value ==> Before(tasks, f.value, id))
  {
    hide FirstCovered, Sorted, Before, TextLess;
    var rows := QueuedRows(tasks);
    SortedMembers(tasks, QueuedIds(tasks));
    SortedAscends(tasks, QueuedIds(tasks));
    FirstCoveredIsFirst(tasks, capabilities, rows);
    var f := FirstCovered(tasks, capabilities, rows);
    forall id | Takeable(tasks, capabilities, id)
      ensures f.Some? && (id != f.value ==> Before(tasks, f.value, id))
    {
      TakeableIsRow(tasks, capabilities, id);
      var k :| 0 <= k < |rows| && rows[k] == id;
      var i :| 0 <= i < |rows| && rows[i] == f.value && forall j :: 0 <= j < i ==> !Covered(tasks, capabilities, rows[j]);
    }
    if f.Some? {
      var i :| 0 <= i < |rows| && rows[i] == f.value && Covered(tasks, capabilities, rows[i]);
      assert rows[i] in rows;
      assert Takeable(tasks, capabilities, f.value);
    }
  }

  /**
    After the reclaim, a lease answers with the least takeable task by creation time and then by id,
    and with no task exactly when there is none; the reclaim itself is kept either way.
   */
  lemma LeastAfterReclaim(s: Store, worker: string, seconds: int, now: int, token: string)
    requires GoodTable(s.tasks) && seconds > 0 && MayLease(s, worker)
    ensures var tasks := Reclaim(s.tasks, now);
            var capabilities := s.workers[worker].capabilities;
            match LeaseWithin(s, None, worker, seconds, now, token)
            case (s', Answer(t)) =>
              && Takeable(tasks, capabilities, t.taskId)
              && (forall id :: Takeable(tasks, capabilities, id) && id != t.taskId ==> Before(tasks, t.taskId, id))
              && s' == s.(tasks := tasks[t.taskId := Leased(tasks[t.taskId], worker, seconds, now, token)])
              && t == s'.tasks[t.taskId].task
            case (s', reply) =>
              reply == NoTask && s' == s.(tasks := tasks) && forall id :: !Takeable(tasks, capabilities, id)
  {
    hide Reclaim, GoodTable, FirstCovered, QueuedRows, Before;
    var tasks := Reclaim(s.tasks, now);
    var capabilities := s.workers[worker].capabilities;
    ReclaimGood(s.tasks, now);
    ChosenIsLeast(tasks, capabilities);
    var f := FirstCovered(tasks, capabilities, QueuedRows(tasks));
    if f.Some? {
      GoodRowOf(tasks, f.value);
    }
  }

  /** Some takeable row is among the first twenty of the queue. */
  ghost predicate InSight(tasks: Table, capabilities: set<string>)
  {
    exists i :: 0 <= i < CANDIDATES && i < |QueuedRows(tasks)| && Covered(tasks, capabilities, QueuedRows(tasks)[i])
  }

  /**
    The server store answers and updates exactly like the local store when a takeable row is among the
    first twenty queued rows, or none is takeable at all; otherwise it answers with no task, although
    there is one, and only reclaims.
   */
  lemma SightDecides(s: Store, worker: string, seconds: int, now: int, token: string)
    requires GoodTable(s.tasks) && seconds > 0 && MayLease(s, worker)
    ensures var tasks := Reclaim(s.tasks, now);
            var capabilities := s.workers[worker].capabilities;
            var server := LeaseWithin(s, Some(CANDIDATES), worker, seconds, now, token);
            && (server == LeaseWithin(s, None, worker, seconds, now, token)
                <==> InSight(tasks, capabilities) || forall id :: !Takeable(tasks, capabilities, id))
            && (!InSight(tasks, capabilities) ==> server == (s.(tasks := tasks), NoTask))
  {
    hide Reclaim, GoodTable, FirstCovered, Sorted;
    var tasks := Reclaim(s.tasks, now);
    var capabilities := s.workers[worker].capabilities;
    LeastAfterReclaim(s, worker, seconds, now, token);
    var rows := QueuedRows(tasks);
    var seen := Candidates(rows, Some(CANDIDATES));
    FirstCoveredIsFirst(tasks, capabilities, rows);
    FirstCoveredIsFirst(tasks, capabilities, seen);
    FirstCoveredIsRow(tasks, capabilities, rows);
    assert forall i :: 0 <= i < |seen| ==> seen[i] == rows[i];
    if InSight(tasks, capabilities) {
      var i :| 0 <= i < CANDIDATES && i < |rows| && Covered(tasks, capabilities, rows[i]);
      assert Covered(tasks, capabilities, seen[i]);
      assert FirstCovered(tasks, capabilities, rows) == FirstCovered(tasks, capabilities, seen);
    }
  }

  // ---- Over the table as a lease finds it -----------------------------------------------------------------

  /** A task that is queued, or that an overdue lease holds. */
  ghost predicate Waiting(tasks: Table, id: string, now: int)
  {
    && id in tasks
    && (|| tasks[id].task.status == QUEUED
        || ((tasks[id].task.status == LEASED || tasks[id].task.status == RUNNING)
            && tasks[id].task.expires.Some? && tasks[id].task.expires.value < now))
  }

  /** A waiting task whose requirements are among the capabilities. */
  ghost predicate Eligible(tasks: Table, capabilities: set<string>, id: string, now: int)
  {
    Waiting(tasks, id, now) && forall c <- tasks[id].task.required :: c in capabilities
  }

  /** One text is a proper prefix of the other, or smaller at the first difference. */
  ghost predicate TextBefore(a: string, b: string)
  {
    exists k: nat :: k <= |a| && k < |b| && a[..k] == b[..k] && (k == |a| || a[k] < b[k])
  }

  lemma {:induction false} TextLessExactly(a: string, b: string)
    ensures TextLess(a, b) <==> TextBefore(a, b)
  {
    if a != [] && b != [] && a[0] == b[0] {
      TextLessExactly(a[1..], b[1..]);
      if TextLess(a, b) {
        var k: nat :| k <= |a[1..]| && k < |b[1..]| && a[1..][..k] == b[1..][..k] && (k == |a[1..]| || a[1..][k] < b[1..][k]);
        assert a[..k + 1] == [a[0]] + a[1..][..k] && b[..k + 1] == [b[0]] + b[1..][..k];
      }
      if TextBefore(a, b) {
        var k: nat :| k <= |a| && k < |b| && a[..k] == b[..k] && (k == |a| || a[k] < b[k]);
        assert k > 0;
        assert a[1..][..k - 1] == a[..k][1..] && b[1..][..k - 1] == b[..k][1..];
        assert k - 1 <= |a[1..]| && k - 1 < |b[1..]|;
      }
    } else if TextLess(a, b) {
      assert a[..0] == b[..0];
    }
  }

  /** Created earlier, or at the same time with the smaller id. */
  ghost predicate Precedes(tasks: Table, a: string, b: string)
  {
    && a in tasks && b in tasks
    && (|| tasks[a].task.createdAt < tasks[b].task.createdAt
        || (tasks[a].task.createdAt == tasks[b].task.createdAt && TextBefore(a, b)))
  }

  /** The waiting tasks ahead of one in the queue. */
  ghost function Ahead(tasks: Table, id: string, now: int): set<string>
  {
    set other <- tasks | Waiting(tasks, other, now) && Precedes(tasks, other, id)
  }

  lemma WaitingIsQueued(tasks: Table, id: string, now: int)
    ensures id in QueuedIds(Reclaim(tasks, now)) <==> Waiting(tasks, id, now)
  {
  }

  lemma EligibleIsTakeable(tasks: Table, capabilities: set<string>, id: string, now: int)
    ensures Takeable(Reclaim(tasks, now), capabilities, id) <==> Eligible(tasks, capabilities, id, now)
  {
  }

  lemma BeforeIsPrecedes(tasks: Table, a: string, b: string, now: int)
    requires a in tasks && b in tasks
    ensures Before(Reclaim(tasks, now), a, b) <==> Precedes(tasks, a, b)
  {
    TextLessExactly(a, b);
  }

  /**
    A lease that its caller may make hands out, of all waiting tasks whose requirements the worker covers,
    the one created first, the smallest id deciding ties; it answers with no task exactly when there is none.
   */
  lemma LeaseTakesTheLeast(s: Store, worker: string, seconds: int, now: int, token: string)
    requires GoodTable(s.tasks) && seconds > 0 && worker in s.workers && s.workers[worker].enabled
    ensures var capabilities := s.workers[worker].capabilities;
            match LeaseWithin(s, None, worker, seconds, now, token).1
            case Answer(t) =>
              && Eligible(s.tasks, capabilities, t.taskId, now)
              && forall id :: Eligible(s.tasks, capabilities, id, now) && id != t.taskId ==> Precedes(s.tasks, t.taskId, id)
            case reply => reply == NoTask && forall id :: !Eligible(s.tasks, capabilities, id, now)
  {
    hide Reclaim, GoodTable, LeaseWithin, Takeable, Eligible, Before, Precedes;
    LeastAfterReclaim(s, worker, seconds, now, token);
    var capabilities := s.workers[worker].capabilities;
    forall id {
      EligibleIsTakeable(s.tasks, capabilities, id, now);
    }
    var reply := LeaseWithin(s, None, worker, seconds, now, token).1;
    if reply.Answer? {
      forall id | Eligible(s.tasks, capabilities, id, now) && id != reply.task.taskId
        ensures Precedes(s.tasks, reply.task.taskId, id)
      {
        EligibleIsTask(s.tasks, capabilities, id, now);
        EligibleIsTask(s.tasks, capabilities, reply.task.taskId, now);
        BeforeIsPrecedes(s.tasks, reply.task.taskId, id, now);
      }
    }
  }

  lemma EligibleIsTask(tasks: Table, capabilities: set<string>, id: string, now: int)
    ensures Eligible(tasks, capabilities, id, now) ==> id in tasks
  {
  }

  function Members(s: seq<string>): set<string>
  {
    set x | x in s
  }

  lemma {:induction false} DistinctCount(s: seq<string>)
    requires Distinct(s)
    ensures |Members(s)| == |s|
  {
    if s == [] {
    } else {
      var front, last := s[..|s| - 1], s[|s| - 1];
      DistinctCount(front);
      assert s == front + [last];
      assert Members(s) == Members(front) + {last};
      assert last !in Members(front);
    }
  }

  lemma BeforeIsStrict(tasks: Table, a: string, b: string)
    requires a in tasks && b in tasks && Before(tasks, a, b)
    ensures !Before(tasks, b, a) && a != b
  {
    TextLessIrreflexive(a);
    if Before(tasks, b, a) {
      BeforeTransitive(tasks, a, b, a);
    }
  }

  lemma AheadAt(tasks: Table, now: int, i: nat, j: nat)
    requires i < |QueuedRows(Reclaim(tasks, now))| && j < |QueuedRows(Reclaim(tasks, now))|
    ensures var rows := QueuedRows(Reclaim(tasks, now));
            && (rows[j] in Ahead(tasks, rows[i], now) <==> j < i) && (j < i ==> rows[j] != rows[i])
  {
    var reclaimed := Reclaim(tasks, now);
    var rows := QueuedRows(reclaimed);
    hide Sorted, Before, Precedes, Waiting, TextLess;
    SortedMembers(reclaimed, QueuedIds(reclaimed));
    SortedAscends(reclaimed, QueuedIds(reclaimed));
    assert rows[j] in rows && rows[i] in rows;
    WaitingIsQueued(tasks, rows[j], now);
    BeforeIsPrecedes(tasks, rows[j], rows[i], now);
    if j < i {
      BeforeIsStrict(reclaimed, rows[j], rows[i]);
    } else if i < j {
      BeforeIsStrict(reclaimed, rows[i], rows[j]);
    } else if Before(reclaimed, rows[j], rows[i]) {
      BeforeIsStrict(reclaimed, rows[j], rows[i]);
    }
  }

  /** The position of a row in the queue is the number of waiting tasks ahead of it. */
  lemma PositionIsAhead(tasks: Table, now: int, i: nat)
    requires i < |QueuedRows(Reclaim(tasks, now))|
    ensures |Ahead(tasks, QueuedRows(Reclaim(tasks, now))[i], now)| == i
  {
    hide Reclaim, Sorted, QueuedRows, Precedes, Waiting;
    var rows := QueuedRows(Reclaim(tasks, now));
    forall j: nat | j < |rows|
      ensures rows[j] in Ahead(tasks, rows[i], now) <==> j < i
    {
      AheadAt(tasks, now, i, j);
    }
    forall j: nat, k: nat | j < k < i
      ensures rows[j] != rows[k]
    {
      AheadAt(tasks, now, k, j);
    }
    forall id | id in Ahead(tasks, rows[i], now)
      ensures id in Members(rows[..i])
    {
      var j := WaitingHasPosition(tasks, now, id);
    }
    assert Ahead(tasks, rows[i], now) == Members(rows[..i]);
    DistinctCount(rows[..i]);
  }

  lemma WaitingHasPosition(tasks: Table, now: int, id: string) returns (j: nat)
    requires Waiting(tasks, id, now)
    ensures j < |QueuedRows(Reclaim(tasks, now))| && QueuedRows(Reclaim(tasks, now))[j] == id
  {
    hide Reclaim, Sorted, Waiting;
    var reclaimed := Reclaim(tasks, now);
    SortedMembers(reclaimed, QueuedIds(reclaimed));
    WaitingIsQueued(tasks, id, now);
    assert id in QueuedRows(reclaimed);
    j :| 0 <= j < |QueuedRows(reclaimed)| && QueuedRows(reclaimed)[j] == id;
  }

  lemma InSightExactly(tasks: Table, capabilities: set<string>, now: int)
    ensures InSight(Reclaim(tasks, now), capabilities) <==> exists id :: Eligible(tasks, capabilities, id, now) && |Ahead(tasks, id, now)| < 20
  {
    hide Sorted, Ahead, Before, QueuedRows;
    var reclaimed := Reclaim(tasks, now);
    var rows := QueuedRows(reclaimed);
    if i :| 0 <= i < CANDIDATES && i < |rows| && Covered(reclaimed, capabilities, rows[i]) {
      PositionIsAhead(tasks, now, i);
      RowWaits(tasks, now, i);
      assert Eligible(tasks, capabilities, rows[i], now);
    }
    if id :| Eligible(tasks, capabilities, id, now) && |Ahead(tasks, id, now)| < 20 {
      var j := WaitingHasPosition(tasks, now, id);
      PositionIsAhead(tasks, now, j);
    }
  }

  lemma RowWaits(tasks: Table, now: int, i: nat)
    requires i < |QueuedRows(Reclaim(tasks, now))|
    ensures Waiting(tasks, QueuedRows(Reclaim(tasks, now))[i], now)
  {
    var reclaimed := Reclaim(tasks, now);
    hide Sorted, Waiting;
    SortedMembers(reclaimed, QueuedIds(reclaimed));
    assert QueuedRows(reclaimed)[i] in QueuedRows(reclaimed);
    WaitingIsQueued(tasks, QueuedRows(reclaimed)[i], now);
  }

  /**
    The server store answers and updates exactly like the local store if and only if some eligible task
    has fewer than twenty waiting tasks ahead of it, or no task is eligible at all; otherwise it answers
    with no task, although there is one, and only reclaims.
   */
  lemma ServerLeaseRefines(s: Store, worker: string, seconds: int, now: int, token: string)
    requires GoodTable(s.tasks) && seconds > 0 && worker in s.workers && s.workers[worker].enabled
    ensures var capabilities := s.workers[worker].capabilities;
            var server := LeaseWithin(s, Some(CANDIDATES), worker, seconds, now, token);
            var near := exists id :: Eligible(s.tasks, capabilities, id, now) && |Ahead(s.tasks, id, now)| < 20;
            && (server == LeaseWithin(s, None, worker, seconds, now, token)
                <==> near || forall id :: !Eligible(s.tasks, capabilities, id, now))
            && (!near ==> server == (s.(tasks := Reclaim(s.tasks, now)), NoTask))
  {
    hide Reclaim, GoodTable, LeaseWithin, Takeable, Eligible, InSight, Ahead;
    var capabilities := s.workers[worker].capabilities;
    SightDecides(s, worker, seconds, now, token);
    InSightExactly(s.tasks, capabilities, now);
    forall id {
      EligibleIsTakeable(s.tasks, capabilities, id, now);
    }
  }

  /** With at most twenty waiting tasks the two stores never differ. */
  lemma ServerAgreesOnShortQueues(s: Store, worker: string, seconds: int, now: int, token: string)
    requires GoodTable(s.tasks) && |set id <- s.tasks | Waiting(s.tasks, id, now)| <= 20
    ensures LeaseWithin(s, Some(CANDIDATES), worker, seconds, now, token) == LeaseWithin(s, None, worker, seconds, now, token)
  {
    hide FirstCovered, Sorted;
    var tasks := Reclaim(s.tasks, now);
    SortedMembers(tasks, QueuedIds(tasks));
    assert QueuedIds(tasks) == set id <- s.tasks | Waiting(s.tasks, id, now) by {
      forall id {
        WaitingIsQueued(s.tasks, id, now);
      }
    }
  }
}
