// The solver cache under overlap: several worker processes share the records of one workspace
// without a lock, and a step is taken apart at every point where another process can see it.
module SolverRace {
  import opened Common
  import opened SolverCache

  // ---- Steps taken apart -----------------------------------------------------------------------------

  /** Writing a record empties its file first; until the text follows, nobody can read it. */
  datatype Record = HalfWritten | Written(metrics: Metrics)

  /** Where a process is in its step: the solver runs, its answer is kept in memory, the record file is open. */
  datatype Phase = Idle | Solving(key: Key) | Keeping(key: Key, metrics: Metrics) | Writing(key: Key, metrics: Metrics)

  datatype Process = Process(model: string, inputs: Inputs, memory: map<Key, Metrics>, phase: Phase)

  datatype Shared = Shared(processes: map<nat, Process>, disk: map<Key, Record>, runs: seq<Key>)

  /** A step is a look-up and, on a miss, the end of the solver run, the opening and the writing of the record. */
  datatype Event = Boot(worker: nat, model: string) | Edit(worker: nat, model: string) | Put(worker: nat, name: string, value: string)
    | Look(worker: nat) | Finish(worker: nat) | Open(worker: nat) | Write(worker: nat)

  datatype Response = Silent | Answered(metrics: Metrics, source: Source) | SolveFailed | Unreadable

  function CurrentKey(p: Process): Key
  {
    Key(p.model, p.inputs)
  }

  function Replace(s: Shared, id: nat, p: Process): Shared
  {
    s.(processes := s.processes[id := p])
  }

  function LookUpKey(s: Shared, id: nat, p: Process): (Shared, Response)
  {
    var k := CurrentKey(p);
    if k in p.memory then (s, Answered(p.memory[k], FromMemory))
    else if k in s.disk then
      match s.disk[k]
      case HalfWritten => (s, Unreadable)
      case Written(m) => (Replace(s, id, p.(memory := p.memory[k := m])), Answered(m, FromDisk))
    else (Replace(s, id, p.(phase := Solving(k))).(runs := s.runs + [k]), Silent)
  }

  /** A boot is also a restart, at any moment; a process that is busy takes neither edits nor inputs. */
  function Do(solve: Solver, s: Shared, e: Event): (Shared, Response)
  {
    if e.Boot? then (Replace(s, e.worker, Process(e.model, map[], map[], Idle)), Silent)
    else if e.worker !in s.processes then (s, Silent)
    else
      var p := s.processes[e.worker];
      match p.phase
      case Idle =>
        if e.Edit? then (Replace(s, e.worker, p.(model := e.model)), Silent)
        else if e.Put? then (Replace(s, e.worker, p.(inputs := p.inputs[e.name := e.value])), Silent)
        else if e.Look? then LookUpKey(s, e.worker, p)
        else (s, Silent)
      case Solving(k) =>
        if !e.Finish? then (s, Silent)
        else
          var m := solve(k);
          if m.None? then (Replace(s, e.worker, p.(phase := Idle)), SolveFailed)
          else (Replace(s, e.worker, p.(memory := p.memory[k := m.value], phase := Keeping(k, m.value))), Silent)
      case Keeping(k, m) =>
        if !e.Open? then (s, Silent)
        else (Replace(s, e.worker, p.(phase := Writing(k, m))).(disk := s.disk[k := HalfWritten]), Silent)
      case Writing(k, m) =>
        if !e.Write? then (s, Silent)
        else (Replace(s, e.worker, p.(phase := Idle)).(disk := s.disk[k := Written(m)]), Answered(m, FromSolver))
  }

  const NOTHING := Shared(map[], map[], [])

  function History(solve: Solver, es: seq<Event>, n: nat): Shared
    requires n <= |es|
  {
    if n == 0 then NOTHING else Do(solve, History(solve, es, n - 1), es[n - 1]).0
  }

  // ---- What every interleaving keeps -------------------------------------------------------------------

  ghost predicate FaithfulRecords(solve: Solver, disk: map<Key, Record>)
  {
    forall k <- disk :: solve(k).Some? && (disk[k].Written? ==> solve(k) == Some(disk[k].metrics))
  }

  /** A process works on its current key, with the solver's answer, and remembers nothing but records and what it is about to record. */
  ghost predicate FaithfulProcess(solve: Solver, disk: map<Key, Record>, p: Process)
  {
    && Faithful(solve, p.memory)
    && match p.phase
       case Idle => p.memory.Keys <= disk.Keys
       case Solving(k) => k == CurrentKey(p) && p.memory.Keys <= disk.Keys
       case Keeping(k, m) => k == CurrentKey(p) && solve(k) == Some(m) && p.memory.Keys <= disk.Keys + {k}
       case Writing(k, m) => k == CurrentKey(p) && solve(k) == Some(m) && k in disk && p.memory.Keys <= disk.Keys
  }

  ghost predicate Consistent(solve: Solver, s: Shared)
  {
    && FaithfulRecords(solve, s.disk)
    && forall id <- s.processes :: FaithfulProcess(solve, s.disk, s.processes[id])
  }

  lemma MoreRecords(solve: Solver, disk: map<Key, Record>, disk': map<Key, Record>, p: Process)
    requires FaithfulProcess(solve, disk, p) && disk.Keys <= disk'.Keys
    ensures FaithfulProcess(solve, disk', p)
  {
  }

  lemma ReplaceKeeps(solve: Solver, s: Shared, disk: map<Key, Record>, id: nat, p: Process, runs: seq<Key>)
    requires Consistent(solve, s) && FaithfulRecords(solve, disk) && s.disk.Keys <= disk.Keys && FaithfulProcess(solve, disk, p)
    ensures Consistent(solve, Shared(s.processes[id := p], disk, runs))
  {
    hide FaithfulProcess, FaithfulRecords;
    forall other | other in s.processes
      ensures FaithfulProcess(solve, disk, s.processes[other])
    {
      MoreRecords(solve, s.disk, disk, s.processes[other]);
    }
  }

  lemma EventKeeps(solve: Solver, s: Shared, e: Event)
    requires Consistent(solve, s)
    ensures Consistent(solve, Do(solve, s, e).0)
  {
    var s' := Do(solve, s, e).0;
    if e.worker in s'.processes && s' != s {
      ProcessKept(solve, s, e);
      hide FaithfulProcess, FaithfulRecords, Consistent;
      ReplaceKeeps(solve, s, s'.disk, e.worker, s'.processes[e.worker], s'.runs);
      OnlyOneChanges(solve, s, e);
    }
  }

  lemma OnlyOneChanges(solve: Solver, s: Shared, e: Event)
    ensures var s' := Do(solve, s, e).0;
            s' == s || (e.worker in s'.processes && s' == Shared(s.processes[e.worker := s'.processes[e.worker]], s'.disk, s'.runs))
  {
  }

  lemma ProcessKept(solve: Solver, s: Shared, e: Event)
    requires Consistent(solve, s)
    ensures var s' := Do(solve, s, e).0;
            && FaithfulRecords(solve, s'.disk) && s.disk.Keys <= s'.disk.Keys
            && (e.worker in s'.processes ==> FaithfulProcess(solve, s'.disk, s'.processes[e.worker]))
  {
    if e.worker in s.processes {
      assert FaithfulProcess(solve, s.disk, s.processes[e.worker]);
    }
  }

  lemma {:induction false} ReachableConsistent(solve: Solver, es: seq<Event>, n: nat)
    requires n <= |es|
    ensures Consistent(solve, History(solve, es, n))
  {
    hide Do, Consistent;
    if n == 0 {
      NothingIsConsistent(solve);
    } else {
      ReachableConsistent(solve, es, n - 1);
      EventKeeps(solve, History(solve, es, n - 1), es[n - 1]);
    }
  }

  lemma NothingIsConsistent(solve: Solver)
    ensures Consistent(solve, NOTHING)
  {
  }

  // ---- Answers -------------------------------------------------------------------------------------------

  ghost predicate IdleAt(s: Shared, id: nat)
  {
    id in s.processes && s.processes[id].phase == Idle
  }

  /**
    Over any interleaving an answer is a fresh solve of the process's current model and inputs, and a
    failed solve is reported only where a fresh one fails. The one new way for a step to fail is a
    look-up of a key that is not in memory while its record is half-written.
   */
  lemma AnswersAreFresh(solve: Solver, es: seq<Event>, i: nat)
    requires i < |es| && es[i].worker in History(solve, es, i).processes
    ensures var s := History(solve, es, i);
            var k := CurrentKey(s.processes[es[i].worker]);
            match Do(solve, s, es[i]).1
            case Answered(m, _) => solve(k) == Some(m)
            case SolveFailed => solve(k) == None
            case _ => true
    ensures var s := History(solve, es, i);
            var p := s.processes[es[i].worker];
            var k := CurrentKey(p);
            Do(solve, s, es[i]).1 == Unreadable
            <==> es[i].Look? && p.phase == Idle && k !in p.memory && k in s.disk && s.disk[k] == HalfWritten
  {
    ReachableConsistent(solve, es, i);
    assert FaithfulProcess(solve, History(solve, es, i).disk, History(solve, es, i).processes[es[i].worker]);
  }

  // ---- Runs ------------------------------------------------------------------------------------------------

  /** Event i looks up key k in an idle process. */
  ghost predicate LooksUp(solve: Solver, es: seq<Event>, i: nat, k: Key)
    requires i < |es|
  {
    var s := History(solve, es, i);
    es[i].Look? && IdleAt(s, es[i].worker) && CurrentKey(s.processes[es[i].worker]) == k
  }

  /** Event i starts the solver on key k. */
  ghost predicate Starts(solve: Solver, es: seq<Event>, i: nat, k: Key)
    requires i < |es|
  {
    History(solve, es, i + 1).runs == History(solve, es, i).runs + [k]
  }

  /** Event i opens the record of key k. */
  ghost predicate Opens(solve: Solver, es: seq<Event>, i: nat, k: Key)
    requires i < |es|
  {
    var s := History(solve, es, i);
    es[i].Open? && es[i].worker in s.processes && s.processes[es[i].worker].phase.Keeping? && s.processes[es[i].worker].phase.key == k
  }

  /** Event i finishes writing the record of key k. */
  ghost predicate Writes(solve: Solver, es: seq<Event>, i: nat, k: Key)
    requires i < |es|
  {
    var s := History(solve, es, i);
    es[i].Write? && es[i].worker in s.processes && s.processes[es[i].worker].phase.Writing? && s.processes[es[i].worker].phase.key == k
  }

  /** The record of a key after one event. */
  lemma DiskStep(solve: Solver, es: seq<Event>, i: nat, k: Key)
    requires i < |es|
    ensures var before, after := History(solve, es, i).disk, History(solve, es, i + 1).disk;
            if Opens(solve, es, i, k) then k in after && after[k] == HalfWritten
            else if Writes(solve, es, i, k) then k in after && after[k].Written?
            else (k in after <==> k in before) && (k in before ==> after[k] == before[k])
  {
  }

  /** A key is on disk exactly when some event opened its record. */
  lemma {:induction false} OnDiskExactly(solve: Solver, es: seq<Event>, n: nat, k: Key)
    requires n <= |es|
    ensures k in History(solve, es, n).disk <==> exists m :: 0 <= m < n && Opens(solve, es, m, k)
  {
    hide Do, Opens, Writes;
    if n == 0 {
    } else {
      OnDiskExactly(solve, es, n - 1, k);
      DiskStep(solve, es, n - 1, k);
      ReachableConsistent(solve, es, n - 1);
      if Writes(solve, es, n - 1, k) {
        WriterIsOnDisk(solve, es, n - 1, k);
      }
    }
  }

  lemma WriterIsOnDisk(solve: Solver, es: seq<Event>, i: nat, k: Key)
    requires i < |es| && Writes(solve, es, i, k)
    ensures k in History(solve, es, i).disk
  {
    hide Do;
    ReachableConsistent(solve, es, i);
  }

  ghost predicate Unwritten(solve: Solver, es: seq<Event>, m: nat, n: nat, k: Key)
    requires n <= |es|
  {
    forall x :: m < x < n ==> !Writes(solve, es, x, k)
  }

  /** A record is half-written exactly when it was opened and nobody finished writing it since. */
  lemma {:induction false} HalfWrittenExactly(solve: Solver, es: seq<Event>, n: nat, k: Key)
    requires n <= |es|
    ensures k in History(solve, es, n).disk && History(solve, es, n).disk[k] == HalfWritten
       <==> exists m :: 0 <= m < n && Opens(solve, es, m, k) && Unwritten(solve, es, m, n, k)
  {
    hide Do, Opens, Writes;
    if n == 0 {
    } else {
      HalfWrittenExactly(solve, es, n - 1, k);
      DiskStep(solve, es, n - 1, k);
      var half := k in History(solve, es, n).disk && History(solve, es, n).disk[k] == HalfWritten;
      if Opens(solve, es, n - 1, k) {
        assert Unwritten(solve, es, n - 1, n, k);
      } else if half {
        var m :| 0 <= m < n - 1 && Opens(solve, es, m, k) && Unwritten(solve, es, m, n - 1, k);
        assert Unwritten(solve, es, m, n, k);
      }
    }
  }

  /** Once a record was opened no run of its key is ever started again. */
  lemma {:induction false} RecordsStay(solve: Solver, es: seq<Event>, i: nat, j: nat)
    requires i <= j <= |es|
    ensures History(solve, es, i).disk.Keys <= History(solve, es, j).disk.Keys
  {
    hide Do, Consistent;
    if i == j {
    } else {
      RecordsStay(solve, es, i, j - 1);
      ReachableConsistent(solve, es, j - 1);
      ProcessKept(solve, History(solve, es, j - 1), es[j - 1]);
    }
  }

  /** Exactly the look-ups of keys that no event opened a record of run the solver, however often it ran before. */
  lemma StartsExactly(solve: Solver, es: seq<Event>, j: nat, k: Key)
    requires j < |es|
    ensures Starts(solve, es, j, k) <==> LooksUp(solve, es, j, k) && forall m :: 0 <= m < j ==> !Opens(solve, es, m, k)
  {
    hide Opens;
    OnDiskExactly(solve, es, j, k);
    ReachableConsistent(solve, es, j);
    StartsOnMiss(solve, es, j, k);
  }

  lemma StartsOnMiss(solve: Solver, es: seq<Event>, j: nat, k: Key)
    requires j < |es| && Consistent(solve, History(solve, es, j))
    ensures Starts(solve, es, j, k) <==> LooksUp(solve, es, j, k) && k !in History(solve, es, j).disk
  {
    var s := History(solve, es, j);
    if es[j].worker in s.processes {
      assert FaithfulProcess(solve, s.disk, s.processes[es[j].worker]);
    }
    assert s.runs != s.runs + [k];
    assert |s.runs + [k]| == |s.runs| + 1 && (s.runs + [k])[|s.runs|] == k;
  }

  /** A process that is between the start of its run of k and the opening of the record. */
  ghost predicate BusyWith(s: Shared, id: nat, k: Key)
  {
    id in s.processes && (s.processes[id].phase == Solving(k) || (s.processes[id].phase.Keeping? && s.processes[id].phase.key == k))
  }

  lemma BusyStep(solve: Solver, s: Shared, e: Event, id: nat, k: Key)
    requires BusyWith(s, id, k) && solve(k).Some? && !(e.Boot? && e.worker == id)
    ensures BusyWith(Do(solve, s, e).0, id, k)
         || (e == Open(id) && s.processes[id].phase.Keeping? && s.processes[id].phase.key == k)
  {
  }

  /** Until the record is opened, the process that runs the solver on a solvable key is busy with it, unless it is restarted. */
  lemma {:induction false} RunnerIsBusy(solve: Solver, es: seq<Event>, i: nat, j: nat, k: Key)
    requires i < j <= |es| && Starts(solve, es, i, k) && solve(k).Some?
    requires forall m :: i < m < j ==> !(es[m].Boot? && es[m].worker == es[i].worker)
    requires forall m :: i < m < j ==> !Opens(solve, es, m, k)
    ensures BusyWith(History(solve, es, j), es[i].worker, k)
  {
    hide Do, BusyWith;
    if j == i + 1 {
      StarterIsBusy(solve, es, i, k);
    } else {
      RunnerIsBusy(solve, es, i, j - 1, k);
      BusyStep(solve, History(solve, es, j - 1), es[j - 1], es[i].worker, k);
      NoOpening(solve, es, j - 1, es[i].worker, k);
    }
  }

  lemma NoOpening(solve: Solver, es: seq<Event>, j: nat, id: nat, k: Key)
    requires j < |es| && BusyWith(History(solve, es, j), id, k) && !Opens(solve, es, j, k)
    ensures !(es[j] == Open(id) && History(solve, es, j).processes[id].phase.Keeping? && History(solve, es, j).processes[id].phase.key == k)
  {
  }

  lemma StarterIsBusy(solve: Solver, es: seq<Event>, i: nat, k: Key)
    requires i < |es| && Starts(solve, es, i, k)
    ensures BusyWith(History(solve, es, i + 1), es[i].worker, k)
  {
    ReachableConsistent(solve, es, i);
    StartsOnMiss(solve, es, i, k);
  }

  /**
    The race. A key that can be solved is solved a second time exactly when a look-up falls between the
    start of the first run and the first opening of the record. The first process is then still busy with
    its run, or was restarted before it could file its answer.
   */
  lemma SolvedTwiceExactly(solve: Solver, es: seq<Event>, i: nat, j: nat, k: Key)
    requires i < j < |es| && Starts(solve, es, i, k) && solve(k).Some? && LooksUp(solve, es, j, k)
    ensures Starts(solve, es, j, k) <==> forall m :: i < m < j ==> !Opens(solve, es, m, k)
    ensures Starts(solve, es, j, k) ==>
      || BusyWith(History(solve, es, j), es[i].worker, k)
      || exists m :: i < m < j && es[m].Boot? && es[m].worker == es[i].worker
  {
    hide Starts, LooksUp, BusyWith;
    StartsExactly(solve, es, i, k);
    StartsExactly(solve, es, j, k);
    StarterOpensNothing(solve, es, i, k);
    if Starts(solve, es, j, k) && forall m :: i < m < j ==> !(es[m].Boot? && es[m].worker == es[i].worker) {
      RunnerIsBusy(solve, es, i, j, k);
    }
  }

  lemma StarterOpensNothing(solve: Solver, es: seq<Event>, i: nat, k: Key)
    requires i < |es| && Starts(solve, es, i, k)
    ensures !Opens(solve, es, i, k)
  {
    ReachableConsistent(solve, es, i);
    StartsOnMiss(solve, es, i, k);
  }

  // ---- Abandoned records ---------------------------------------------------------------------------------

  /** The record is half-written and no process is about to finish it. */
  ghost predicate Abandoned(s: Shared, k: Key)
  {
    && k in s.disk && s.disk[k] == HalfWritten
    && forall id <- s.processes :: s.processes[id].phase.Idle? || s.processes[id].phase.key != k
  }

  lemma AbandonedStep(solve: Solver, s: Shared, e: Event, k: Key)
    requires Consistent(solve, s) && Abandoned(s, k)
    ensures Abandoned(Do(solve, s, e).0, k)
  {
    if e.worker in s.processes {
      assert FaithfulProcess(solve, s.disk, s.processes[e.worker]);
    }
  }

  /** Such a record, as a process leaves it that is restarted while it writes, stays half-written for ever. */
  lemma {:induction false} AbandonedForever(solve: Solver, es: seq<Event>, i: nat, j: nat, k: Key)
    requires i <= j <= |es| && Abandoned(History(solve, es, i), k)
    ensures Abandoned(History(solve, es, j), k)
  {
    hide Do, Consistent, Abandoned;
    if i == j {
    } else {
      AbandonedForever(solve, es, i, j - 1, k);
      ReachableConsistent(solve, es, j - 1);
      AbandonedStep(solve, History(solve, es, j - 1), es[j - 1], k);
    }
  }

  /** A restart while writing abandons the record, unless another process is busy with the same key. */
  lemma RestartAbandons(solve: Solver, s: Shared, id: nat, model: string, k: Key)
    requires id in s.processes && s.processes[id].phase.Writing? && s.processes[id].phase.key == k
    requires k in s.disk && s.disk[k] == HalfWritten
    ensures Abandoned(Do(solve, s, Boot(id, model)).0, k) <==>
      forall other <- s.processes :: other != id ==> s.processes[other].phase.Idle? || s.processes[other].phase.key != k
  {
    var s' := Do(solve, s, Boot(id, model)).0;
    forall other | other in s.processes && other != id
      ensures other in s'.processes && s'.processes[other] == s.processes[other]
    {
    }
  }

  // ---- Steps that do not overlap ------------------------------------------------------------------------------

  ghost predicate Quiet(s: Shared)
  {
    && (forall id <- s.processes :: s.processes[id].phase == Idle)
    && (forall k <- s.disk :: s.disk[k].Written?)
  }

  /** The cache that a quiet workspace is. */
  ghost function Cache(s: Shared): State
    requires Quiet(s)
  {
    State(map id <- s.processes :: Worker(s.processes[id].model, s.processes[id].inputs, s.processes[id].memory),
          map k <- s.disk :: s.disk[k].metrics, s.runs)
  }

  /** A whole step of one process with nothing in between. */
  function WholeStep(solve: Solver, s: Shared, id: nat): (Shared, Response)
  {
    var looked := Do(solve, s, Look(id));
    if looked.1 != Silent then looked
    else
      var finished := Do(solve, looked.0, Finish(id));
      if finished.1 != Silent then finished
      else Do(solve, Do(solve, finished.0, Open(id)).0, Write(id))
  }

  function Answer(r: Response): Reply
  {
    match r
    case Answered(m, source) => Solved(m, source)
    case SolveFailed => SolverFailed
    case _ => NoReply
  }

  lemma MissWrites(solve: Solver, s: Shared, id: nat)
    requires IdleAt(s, id)
    ensures var p := s.processes[id];
            var k := CurrentKey(p);
            k !in p.memory && k !in s.disk ==>
              WholeStep(solve, s, id) ==
                match solve(k)
                case None => (Shared(s.processes[id := p], s.disk, s.runs + [k]), SolveFailed)
                case Some(m) => (Shared(s.processes[id := p.(memory := p.memory[k := m])], s.disk[k := Written(m)], s.runs + [k]), Answered(m, FromSolver))
  {
    var p := s.processes[id];
    var k := CurrentKey(p);
    if k !in p.memory && k !in s.disk {
      var looked := Do(solve, s, Look(id)).0;
      assert looked.processes[id] == p.(phase := Solving(k));
      if solve(k).Some? {
        var finished := Do(solve, looked, Finish(id)).0;
        var emptied := Do(solve, finished, Open(id)).0;
        assert finished.processes[id].phase == Keeping(k, solve(k).value);
        assert emptied.processes[id].phase == Writing(k, solve(k).value);
        assert emptied.disk[k := Written(solve(k).value)] == s.disk[k := Written(solve(k).value)];
        assert Do(solve, emptied, Write(id)).0.processes == s.processes[id := p.(memory := p.memory[k := solve(k).value])];
      } else {
        assert Do(solve, looked, Finish(id)).0.processes == s.processes[id := p];
      }
    }
  }

  lemma SameDisk(s: Shared, id: nat, p: Process, runs: seq<Key>)
    requires Quiet(s) && p.phase == Idle
    ensures var s' := Shared(s.processes[id := p], s.disk, runs);
            Quiet(s') && Cache(s') == State(Cache(s).workers[id := Worker(p.model, p.inputs, p.memory)], Cache(s).disk, runs)
  {
    var s' := Shared(s.processes[id := p], s.disk, runs);
    assert Cache(s').workers == Cache(s).workers[id := Worker(p.model, p.inputs, p.memory)];
  }

  lemma OneRecord(s: Shared, id: nat, p: Process, k: Key, m: Metrics, runs: seq<Key>)
    requires Quiet(s) && p.phase == Idle
    ensures var s' := Shared(s.processes[id := p], s.disk[k := Written(m)], runs);
            Quiet(s') && Cache(s') == State(Cache(s).workers[id := Worker(p.model, p.inputs, p.memory)], Cache(s).disk[k := m], runs)
  {
    var s' := Shared(s.processes[id := p], s.disk[k := Written(m)], runs);
    assert Cache(s').workers == Cache(s).workers[id := Worker(p.model, p.inputs, p.memory)];
    assert Cache(s').disk == Cache(s).disk[k := m];
  }

  lemma HitAnswers(solve: Solver, s: Shared, id: nat)
    requires Quiet(s) && id in s.processes
    ensures var p := s.processes[id];
            var k := CurrentKey(p);
            && (k in p.memory ==> WholeStep(solve, s, id) == (s, Answered(p.memory[k], FromMemory)))
            && (k !in p.memory && k in s.disk ==>
                  WholeStep(solve, s, id) ==
                  (Replace(s, id, p.(memory := p.memory[k := s.disk[k].metrics])), Answered(s.disk[k].metrics, FromDisk)))
  {
  }

  /** Steps that do not overlap are the steps of the cache as one process at a time sees it. */
  lemma WholeStepsAreSteps(solve: Solver, s: Shared, id: nat)
    requires Quiet(s) && id in s.processes
    ensures var (s', r) := WholeStep(solve, s, id);
            Quiet(s') && (Cache(s'), Answer(r)) == SolverCache.Apply(solve, Cache(s), SolverCache.Step(id))
  {
    var p := s.processes[id];
    var k := CurrentKey(p);
    var w := Cache(s).workers[id];
    assert w == Worker(p.model, p.inputs, p.memory) && KeyOf(w) == k;
    assert k in s.disk ==> Cache(s).disk[k] == s.disk[k].metrics;
    MissWrites(solve, s, id);
    HitAnswers(solve, s, id);
    hide WholeStep, Cache, Quiet;
    SameDisk(s, id, p, s.runs);
    assert s.processes[id := p] == s.processes;
    if k in p.memory {
    } else if k in s.disk {
      SameDisk(s, id, p.(memory := p.memory[k := s.disk[k].metrics]), s.runs);
    } else if solve(k).Some? {
      OneRecord(s, id, p.(memory := p.memory[k := solve(k).value]), k, solve(k).value, s.runs + [k]);
    } else {
      SameDisk(s, id, p, s.runs + [k]);
    }
  }

  /** Between steps a boot, an edit or an input is what it is for the cache; a busy process takes no edit and no input. */
  lemma BetweenSteps(solve: Solver, s: Shared, id: nat, model: string, name: string, value: string)
    ensures Quiet(s) ==>
              && Quiet(Do(solve, s, Boot(id, model)).0) && Quiet(Do(solve, s, Edit(id, model)).0) && Quiet(Do(solve, s, Put(id, name, value)).0)
              && Cache(Do(solve, s, Boot(id, model)).0) == SolverCache.Apply(solve, Cache(s), SolverCache.Start(id, model)).0
              && Cache(Do(solve, s, Edit(id, model)).0) == SolverCache.Apply(solve, Cache(s), SolverCache.EditModel(id, model)).0
              && Cache(Do(solve, s, Put(id, name, value)).0) == SolverCache.Apply(solve, Cache(s), SolverCache.Inject(id, name, value)).0
    ensures id in s.processes && s.processes[id].phase != Idle ==>
              Do(solve, s, Edit(id, model)) == Do(solve, s, Put(id, name, value)) == (s, Silent)
  {
    if Quiet(s) {
      if id in s.processes {
        var p := s.processes[id];
        SameProcess(s, id, p.(model := model));
        SameProcess(s, id, p.(inputs := p.inputs[name := value]));
      }
      SameProcess(s, id, Process(model, map[], map[], Idle));
    }
  }

  lemma SameProcess(s: Shared, id: nat, p: Process)
    requires Quiet(s) && p.phase == Idle
    ensures Quiet(Replace(s, id, p)) && Cache(Replace(s, id, p)) == Cache(s).(workers := Cache(s).workers[id := Worker(p.model, p.inputs, p.memory)])
  {
    SameDisk(s, id, p, s.runs);
    assert Replace(s, id, p) == Shared(s.processes[id := p], s.disk, s.runs);
  }
}
