// The two-level memo of the openEMS worker: a dictionary in the process and records in the
// workspace, shared by every worker that runs there, now or after a restart. Here the steps of
// different workers do not overlap; SolverRace takes them apart.
module SolverCache {
  import opened Common

  type Metrics = map<string, string>
  type Inputs = map<string, string>

  /** What the cache key identifies: the bytes of the model and the injected inputs. */
  datatype Key = Key(model: string, inputs: Inputs)

  /** A deterministic solver; None stands for a run that fails. */
  type Solver = Key -> Option<Metrics>

  // ---- On values ------------------------------------------------------------------------------------

  datatype Worker = Worker(model: string, inputs: Inputs, memory: map<Key, Metrics>)

  /** All workers of a workspace, its records, and the solver runs made so far. */
  datatype State = State(workers: map<nat, Worker>, disk: map<Key, Metrics>, runs: seq<Key>)

  /** Start also stands for a restart: the process comes up with no inputs and an empty dictionary. */
  datatype Op = Start(worker: nat, model: string) | EditModel(worker: nat, model: string)
    | Inject(worker: nat, name: string, value: string) | Step(worker: nat)

  datatype Source = FromMemory | FromDisk | FromSolver

  datatype Reply = NoReply | Solved(metrics: Metrics, source: Source) | SolverFailed

  datatype Lookup = Lookup(memory: map<Key, Metrics>, disk: map<Key, Metrics>, runs: seq<Key>, reply: Reply)

  /** One step: the dictionary first, then the records, then the solver, whose answer goes to both. */
  function LookUp(solve: Solver, memory: map<Key, Metrics>, disk: map<Key, Metrics>, runs: seq<Key>, k: Key): Lookup
  {
    if k in memory then Lookup(memory, disk, runs, Solved(memory[k], FromMemory))
    else if k in disk then Lookup(memory[k := disk[k]], disk, runs, Solved(disk[k], FromDisk))
    else
      match solve(k)
      case None => Lookup(memory, disk, runs + [k], SolverFailed)
      case Some(m) => Lookup(memory[k := m], disk[k := m], runs + [k], Solved(m, FromSolver))
  }

  function KeyOf(w: Worker): Key
  {
    Key(w.model, w.inputs)
  }

  function Apply(solve: Solver, s: State, op: Op): (State, Reply)
  {
    if op.Start? then (s.(workers := s.workers[op.worker := Worker(op.model, map[], map[])]), NoReply)
    else if op.worker !in s.workers then (s, NoReply)
    else
      var w := s.workers[op.worker];
      match op
      case EditModel(id, model) => (s.(workers := s.workers[id := w.(model := model)]), NoReply)
      case Inject(id, name, value) => (s.(workers := s.workers[id := w.(inputs := w.inputs[name := value])]), NoReply)
      case Step(id) =>
        var l := LookUp(solve, w.memory, s.disk, s.runs, KeyOf(w));
        (State(s.workers[id := w.(memory := l.memory)], l.disk, l.runs), l.reply)
  }

  const EMPTY := State(map[], map[], [])

  function After(solve: Solver, ops: seq<Op>, n: nat): State
    requires n <= |ops|
  {
    if n == 0 then EMPTY else Apply(solve, After(solve, ops, n - 1), ops[n - 1]).0
  }

  /** Everything stored under a key is what the solver says for it. */
  ghost predicate Faithful(solve: Solver, entries: map<Key, Metrics>)
  {
    forall k <- entries :: solve(k) == Some(entries[k])
  }

  /** Stored entries are faithful and persisted, and the solver ran once for each persisted key. */
  ghost predicate Sound(solve: Solver, s: State)
  {
    && Faithful(solve, s.disk)
    && (forall id <- s.workers :: Faithful(solve, s.workers[id].memory) && s.workers[id].memory.Keys <= s.disk.Keys)
    && (forall k :: solve(k).Some? ==> multiset(s.runs)[k] == if k in s.disk then 1 else 0)
  }

  lemma LookUpSound(solve: Solver, s: State, id: nat)
    requires Sound(solve, s) && id in s.workers
    ensures Sound(solve, Apply(solve, s, Step(id)).0)
  {
    var w := s.workers[id];
    var k := KeyOf(w);
    assert Faithful(solve, w.memory);
    LookUpFaithful(solve, w.memory, s.disk, s.runs, k);
  }

  /** A look-up keeps what is stored faithful and persisted, and counts the run it makes. */
  lemma LookUpFaithful(solve: Solver, memory: map<Key, Metrics>, disk: map<Key, Metrics>, runs: seq<Key>, k: Key)
    requires Faithful(solve, memory) && Faithful(solve, disk) && memory.Keys <= disk.Keys
    requires forall x :: solve(x).Some? ==> multiset(runs)[x] == if x in disk then 1 else 0
    ensures var l := LookUp(solve, memory, disk, runs, k);
            && Faithful(solve, l.memory) && Faithful(solve, l.disk) && l.memory.Keys <= l.disk.Keys && disk.Keys <= l.disk.Keys
            && (forall x :: solve(x).Some? ==> multiset(l.runs)[x] == if x in l.disk then 1 else 0)
  {
    hide Faithful;
    LookUpKeepsFaith(solve, memory, disk, runs, k);
    LookUpCounts(solve, memory, disk, runs, k);
  }

  lemma LookUpKeepsFaith(solve: Solver, memory: map<Key, Metrics>, disk: map<Key, Metrics>, runs: seq<Key>, k: Key)
    requires Faithful(solve, memory) && Faithful(solve, disk)
    ensures var l := LookUp(solve, memory, disk, runs, k); Faithful(solve, l.memory) && Faithful(solve, l.disk)
  {
  }

  lemma LookUpCounts(solve: Solver, memory: map<Key, Metrics>, disk: map<Key, Metrics>, runs: seq<Key>, k: Key)
    requires memory.Keys <= disk.Keys
    requires forall x :: solve(x).Some? ==> multiset(runs)[x] == if x in disk then 1 else 0
    ensures var l := LookUp(solve, memory, disk, runs, k);
            && l.memory.Keys <= l.disk.Keys && disk.Keys <= l.disk.Keys
            && (forall x :: solve(x).Some? ==> multiset(l.runs)[x] == if x in l.disk then 1 else 0)
  {
    assert multiset(runs + [k]) == multiset(runs) + multiset{k};
  }

  lemma {:induction false} ReachableSound(solve: Solver, ops: seq<Op>, n: nat)
    requires n <= |ops|
    ensures Sound(solve, After(solve, ops, n))
  {
    if n == 0 {
    } else {
      ReachableSound(solve, ops, n - 1);
      var s := After(solve, ops, n - 1);
      var op := ops[n - 1];
      if op.Step? && op.worker in s.workers {
        LookUpSound(solve, s, op.worker);
      }
    }
  }

  /**
    Transparency: over any sequence of starts, restarts, edits, injections and whole steps of any number
    of workers, a step answers with a fresh solve of its worker's current model and inputs, and fails
    exactly when that solve fails.
   */
  lemma CacheIsTransparent(solve: Solver, ops: seq<Op>, i: nat)
    requires i < |ops| && ops[i].Step? && ops[i].worker in After(solve, ops, i).workers
    ensures var s := After(solve, ops, i);
            match Apply(solve, s, ops[i]).1
            case Solved(m, _) => solve(KeyOf(s.workers[ops[i].worker])) == Some(m)
            case SolverFailed => solve(KeyOf(s.workers[ops[i].worker])) == None
            case NoReply => false
  {
    ReachableSound(solve, ops, i);
  }

  /** As long as steps do not overlap, the solver runs at most once for a key it can solve, however many workers ask and restart. */
  lemma SolvedAtMostOnce(solve: Solver, ops: seq<Op>, n: nat, k: Key)
    requires n <= |ops| && solve(k).Some?
    ensures multiset(After(solve, ops, n).runs)[k] <= 1
  {
    ReachableSound(solve, ops, n);
  }

  // ---- As the program runs it --------------------------------------------------------------------------

  /** A mutable dictionary. */
  class Dict {
    var entries: Metrics

    constructor (entries: Metrics)
      ensures this.entries == entries
    {
      this.entries := entries;
    }

    method Copy() returns (d: Dict)
      ensures fresh(d) && d.entries == entries
    {
      d := new Dict(entries);
    }
  }

  /** The record directory of a workspace, and the runs made in it. */
  class Workspace {
    var disk: map<Key, Metrics>
    ghost var runs: seq<Key>

    constructor ()
      ensures disk == map[] && runs == []
    {
      disk, runs := map[], [];
    }
  }

  class OpenEmsWorker {
    const solve: Solver
    const workspace: Workspace
    var cache: map<Key, Dict>
    var inputs: Inputs

    constructor (solve: Solver, workspace: Workspace)
      ensures this.solve == solve && this.workspace == workspace && cache == map[] && inputs == map[]
    {
      this.solve, this.workspace := solve, workspace;
      cache, inputs := map[], map[];
    }

    /** What the dictionary holds. */
    ghost function Memory(): map<Key, Metrics>
      reads this, cache.Values
    {
      map k <- cache :: cache[k].entries
    }

    method InjectInput(name: string, value: string)
      modifies this`inputs
      ensures inputs == old(inputs)[name := value]
    {
      inputs := inputs[name := value];
    }

    /** Files a copy of a dictionary under a key. */
    method Keep(k: Key, d: Dict)
      modifies this`cache
      ensures Memory() == old(Memory())[k := d.entries]
      ensures forall kept <- cache.Values :: kept in old(cache.Values) || fresh(kept)
    {
      var copy := d.Copy();
      cache := cache[k := copy];
    }

    /**
      A step looks its key up as LookUp does, and hands out two dictionaries of its own: neither is the
      other, nor one that the cache holds.
     */
    method StepWorker(model: string) returns (reply: Reply, outputs: Dict, metrics: Dict)
      modifies this`cache, workspace
      ensures LookUp(solve, old(Memory()), old(workspace.disk), old(workspace.runs), Key(model, inputs))
           == Lookup(Memory(), workspace.disk, workspace.runs, reply)
      ensures reply.Solved? ==> outputs.entries == metrics.entries == reply.metrics
      ensures fresh(outputs) && fresh(metrics) && outputs != metrics
      ensures outputs !in cache.Values && metrics !in cache.Values
    {
      var k := Key(model, inputs);
      if k in cache {
        outputs, metrics := CopyTwice(cache[k]);
        reply := Solved(metrics.entries, FromMemory);
      } else if k in workspace.disk {
        var loaded := new Dict(workspace.disk[k]);
        Keep(k, loaded);
        outputs, metrics := CopyTwice(loaded);
        reply := Solved(metrics.entries, FromDisk);
      } else {
        reply, outputs, metrics := SolveAndKeep(k);
      }
    }

    method CopyTwice(d: Dict) returns (first: Dict, second: Dict)
      ensures fresh(first) && fresh(second) && first != second
      ensures first.entries == second.entries == d.entries
    {
      first := d.Copy();
      second := d.Copy();
    }

    /** A miss on both levels: runs the solver and files its answer on both. */
    method SolveAndKeep(k: Key) returns (reply: Reply, outputs: Dict, metrics: Dict)
      requires k !in cache && k !in workspace.disk
      modifies this`cache, workspace
      ensures LookUp(solve, old(Memory()), old(workspace.disk), old(workspace.runs), k)
           == Lookup(Memory(), workspace.disk, workspace.runs, reply)
      ensures reply.Solved? ==> outputs.entries == metrics.entries == reply.metrics
      ensures fresh(outputs) && fresh(metrics) && outputs != metrics
      ensures outputs !in cache.Values && metrics !in cache.Values
    {
      workspace.runs := workspace.runs + [k];
      assert Memory() == old(Memory());
      match solve(k)
      case None =>
        outputs := new Dict(map[]);
        metrics := new Dict(map[]);
        reply := SolverFailed;
      case Some(m) =>
        metrics := new Dict(m);
        assert Memory() == old(Memory());
        Keep(k, metrics);
        outputs := metrics.Copy();
        workspace.disk := workspace.disk[k := m];
        reply := Solved(m, FromSolver);
    }

    /** A caller that scribbles over both returned dictionaries cannot change what the next step answers. */
    method StepScribbleStep(model: string, scribble: Metrics) returns (first: Reply, second: Reply)
      modifies this`cache, workspace
      ensures first.Solved? ==> second == Solved(first.metrics, FromMemory)
    {
      var outputs, metrics;
      first, outputs, metrics := StepWorker(model);
      ghost var memory := Memory();
      assert first.Solved? ==> Key(model, inputs) in memory && memory[Key(model, inputs)] == first.metrics;
      forall k | k in cache
        ensures cache[k] != outputs && cache[k] != metrics
      {
        assert cache[k] in cache.Values;
      }
      outputs.entries := scribble;
      metrics.entries := scribble;
      assert Memory() == memory;
      second, outputs, metrics := StepWorker(model);
    }
  }
}
