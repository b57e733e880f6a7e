// What a worker of the solver cache has at any point of a run, and where each answer comes from, read
// off the operations so far. As in SolverCache, the steps of different workers do not overlap.
module SolverHistory {
  import opened Common
  import opened SolverCache

  // ---- Model and inputs ------------------------------------------------------------------------------------

  /** Operation b is the latest start of a worker. */
  ghost predicate Started(ops: seq<Op>, b: nat, n: nat, id: nat)
  {
    b < n <= |ops| && ops[b].Start? && ops[b].worker == id && forall i :: b < i < n ==> !(ops[i].Start? && ops[i].worker == id)
  }

  ghost predicate IsStarted(ops: seq<Op>, n: nat, id: nat)
  {
    exists b: nat :: Started(ops, b, n, id)
  }

  /** Operation i, a start or an edit, is the latest to give a worker its model. */
  ghost predicate GaveModel(ops: seq<Op>, i: nat, n: nat, id: nat, model: string)
  {
    && i < n <= |ops| && ops[i].worker == id && (ops[i].Start? || ops[i].EditModel?) && ops[i].model == model
    && forall j :: i < j < n ==> !(ops[j].worker == id && (ops[j].Start? || ops[j].EditModel?))
  }

  /** Operation i is the latest to give an input of a worker its value, and the worker has not been started since. */
  ghost predicate GaveInput(ops: seq<Op>, i: nat, n: nat, id: nat, name: string, value: string)
  {
    && i < n <= |ops| && ops[i] == Inject(id, name, value)
    && forall j :: i < j < n ==> !(ops[j].worker == id && (ops[j].Start? || (ops[j].Inject? && ops[j].name == name)))
  }

  ghost predicate HasInput(ops: seq<Op>, n: nat, id: nat, name: string, value: string)
  {
    exists i: nat :: GaveInput(ops, i, n, id, name, value)
  }

  lemma IsStartedOneMore(ops: seq<Op>, m: nat, id: nat)
    requires m < |ops|
    ensures IsStarted(ops, m + 1, id) <==> (ops[m].Start? && ops[m].worker == id) || IsStarted(ops, m, id)
  {
    if ops[m].Start? && ops[m].worker == id {
      assert Started(ops, m, m + 1, id);
    } else {
      if b: nat :| Started(ops, b, m, id) {
        assert Started(ops, b, m + 1, id);
      }
      if IsStarted(ops, m + 1, id) {
        var n := m + 1;
        var b: nat :| Started(ops, b, n, id);
        assert Started(ops, b, m, id);
      }
    }
  }

  lemma HasInputOneMore(ops: seq<Op>, m: nat, id: nat, name: string, value: string)
    requires m < |ops|
    ensures HasInput(ops, m + 1, id, name, value) <==>
      if ops[m].worker == id && (ops[m].Start? || (ops[m].Inject? && ops[m].name == name)) then ops[m] == Inject(id, name, value)
      else HasInput(ops, m, id, name, value)
  {
    var n := m + 1;
    if ops[m] == Inject(id, name, value) {
      assert GaveInput(ops, m, n, id, name, value);
    }
    if HasInput(ops, m, id, name, value) && !(ops[m].worker == id && (ops[m].Start? || (ops[m].Inject? && ops[m].name == name))) {
      var i: nat :| GaveInput(ops, i, m, id, name, value);
      assert GaveInput(ops, i, n, id, name, value);
    }
    if HasInput(ops, n, id, name, value) {
      var i: nat :| GaveInput(ops, i, n, id, name, value);
      assert i < m ==> GaveInput(ops, i, m, id, name, value);
    }
  }

  lemma OneOperation(solve: Solver, s: State, op: Op, id: nat)
    ensures var s' := Apply(solve, s, op).0;
            if op == Start(id, if op.Start? then op.model else "") then
              id in s'.workers && s'.workers[id].model == op.model && s'.workers[id].inputs == map[]
            else
              && (id in s'.workers <==> id in s.workers)
              && (id in s.workers ==>
                    && s'.workers[id].model == (if op.EditModel? && op.worker == id then op.model else s.workers[id].model)
                    && s'.workers[id].inputs == if op.Inject? && op.worker == id then s.workers[id].inputs[op.name := op.value]
                                                else s.workers[id].inputs)
  {
  }

  /** A worker is there if and only if it was started; its model is the latest it was started with or edited to. */
  lemma {:induction false} ModelIsLatest(solve: Solver, ops: seq<Op>, n: nat, id: nat)
    requires n <= |ops|
    ensures id in After(solve, ops, n).workers <==> IsStarted(ops, n, id)
    ensures id in After(solve, ops, n).workers ==> exists i: nat :: GaveModel(ops, i, n, id, After(solve, ops, n).workers[id].model)
  {
    hide Apply;
    if n == 0 {
    } else {
      ModelIsLatest(solve, ops, n - 1, id);
      var s, op := After(solve, ops, n - 1), ops[n - 1];
      OneOperation(solve, s, op, id);
      if op.worker == id && (op.Start? || (op.EditModel? && id in s.workers)) {
        assert GaveModel(ops, n - 1, n, id, op.model);
      } else if id in s.workers {
        var i: nat :| GaveModel(ops, i, n - 1, id, s.workers[id].model);
        assert GaveModel(ops, i, n, id, s.workers[id].model);
      }
      IsStartedOneMore(ops, n - 1, id);
    }
  }

  /** An input has a value if and only if some injection since the start gave it one, and it is the latest. */
  lemma {:induction false} InputsAreLatest(solve: Solver, ops: seq<Op>, n: nat, id: nat, name: string, value: string)
    requires n <= |ops| && id in After(solve, ops, n).workers
    ensures var inputs := After(solve, ops, n).workers[id].inputs;
            name in inputs && inputs[name] == value <==> HasInput(ops, n, id, name, value)
  {
    hide Apply;
    if n == 0 {
    } else {
      var s, op := After(solve, ops, n - 1), ops[n - 1];
      OneOperation(solve, s, op, id);
      HasInputOneMore(ops, n - 1, id, name, value);
      if !(op.worker == id && op.Start?) {
        InputsAreLatest(solve, ops, n - 1, id, name, value);
      }
    }
  }

  // ---- Where an answer comes from ------------------------------------------------------------------------------

  /** Step i answered for a key: it is the step of a running worker with that key, and the key can be solved. */
  ghost predicate AnsweredFor(solve: Solver, ops: seq<Op>, i: nat, k: Key)
  {
    && i < |ops| && ops[i].Step? && ops[i].worker in After(solve, ops, i).workers
    && Key(After(solve, ops, i).workers[ops[i].worker].model, After(solve, ops, i).workers[ops[i].worker].inputs) == k
    && solve(k).Some?
  }

  ghost predicate AnsweredBefore(solve: Solver, ops: seq<Op>, n: nat, k: Key)
  {
    exists i: nat :: i < n && AnsweredFor(solve, ops, i, k)
  }

  /** The same worker answered for the key, and has not been started since. */
  ghost predicate Remembers(solve: Solver, ops: seq<Op>, n: nat, id: nat, k: Key)
  {
    exists i: nat :: i < n <= |ops| && AnsweredFor(solve, ops, i, k) && ops[i].worker == id
                     && forall j :: i < j < n ==> !(ops[j].Start? && ops[j].worker == id)
  }

  lemma StoredByOne(solve: Solver, s: State, op: Op, id: nat, k: Key)
    requires Sound(solve, s)
    ensures var s' := Apply(solve, s, op).0;
            var answers := op.Step? && op.worker in s.workers && KeyOf(s.workers[op.worker]) == k && solve(k).Some?;
            && (k in s'.disk <==> k in s.disk || answers)
            && (id in s'.workers ==>
                  (k in s'.workers[id].memory <==>
                     !(op.Start? && op.worker == id) && ((id in s.workers && k in s.workers[id].memory) || (answers && op.worker == id))))
  {
    if op.worker in s.workers {
      var w := s.workers[op.worker];
      assert Faithful(solve, w.memory) && w.memory.Keys <= s.disk.Keys;
    }
  }

  /** A key has a record exactly when some worker answered for it, and is remembered exactly when that worker did so itself since it started. */
  lemma {:induction false} StoredExactly(solve: Solver, ops: seq<Op>, n: nat, id: nat, k: Key)
    requires n <= |ops|
    ensures k in After(solve, ops, n).disk <==> AnsweredBefore(solve, ops, n, k)
    ensures id in After(solve, ops, n).workers ==>
              (k in After(solve, ops, n).workers[id].memory <==> Remembers(solve, ops, n, id, k))
  {
    hide Apply, Sound, AnsweredFor;
    if n == 0 {
    } else {
      StoredExactly(solve, ops, n - 1, id, k);
      ReachableSound(solve, ops, n - 1);
      var s, op := After(solve, ops, n - 1), ops[n - 1];
      StoredByOne(solve, s, op, id, k);
      LastAnswers(solve, ops, n - 1, k);
      if AnsweredBefore(solve, ops, n - 1, k) {
        var i: nat :| i < n - 1 && AnsweredFor(solve, ops, i, k);
        assert i < n;
      }
      OneOperation(solve, s, op, id);
      RemembersOneMore(solve, ops, n, id, k);
    }
  }

  lemma LastAnswers(solve: Solver, ops: seq<Op>, n: nat, k: Key)
    requires n < |ops|
    ensures AnsweredFor(solve, ops, n, k) <==>
      var s, op := After(solve, ops, n), ops[n];
      op.Step? && op.worker in s.workers && KeyOf(s.workers[op.worker]) == k && solve(k).Some?
  {
  }

  lemma RemembersOneMore(solve: Solver, ops: seq<Op>, n: nat, id: nat, k: Key)
    requires 0 < n <= |ops|
    ensures Remembers(solve, ops, n, id, k) <==>
      || (AnsweredFor(solve, ops, n - 1, k) && ops[n - 1].worker == id)
      || (!(ops[n - 1].Start? && ops[n - 1].worker == id) && Remembers(solve, ops, n - 1, id, k))
  {
    hide AnsweredFor;
  }

  /**
    A step of a running worker whose key can be solved answers from memory exactly when the worker itself
    answered for the key since it started, from a record exactly when only others or earlier lives of it
    did, and from the solver exactly when nobody did.
   */
  lemma SourceExactly(solve: Solver, ops: seq<Op>, n: nat, k: Key)
    requires AnsweredFor(solve, ops, n, k)
    ensures var reply := Apply(solve, After(solve, ops, n), ops[n]).1;
            && reply.Solved? && Some(reply.metrics) == solve(k)
            && (reply.source == FromMemory <==> Remembers(solve, ops, n, ops[n].worker, k))
            && (reply.source == FromSolver <==> !AnsweredBefore(solve, ops, n, k))
            && (reply.source == FromDisk <==> AnsweredBefore(solve, ops, n, k) && !Remembers(solve, ops, n, ops[n].worker, k))
  {
    ReachableSound(solve, ops, n);
    StoredExactly(solve, ops, n, ops[n].worker, k);
    CacheIsTransparent(solve, ops, n);
    hide Remembers, AnsweredBefore;
    assert After(solve, ops, n).workers[ops[n].worker].memory.Keys <= After(solve, ops, n).disk.Keys;
  }

  /** The solver runs in a step exactly when its key cannot be solved, or nobody answered for it before. */
  lemma RunsExactly(solve: Solver, ops: seq<Op>, n: nat)
    requires n < |ops| && ops[n].Step? && ops[n].worker in After(solve, ops, n).workers
    ensures var w := After(solve, ops, n).workers[ops[n].worker];
            var k := Key(w.model, w.inputs);
            After(solve, ops, n + 1).runs == After(solve, ops, n).runs + if solve(k).None? || !AnsweredBefore(solve, ops, n, k) then [k] else []
  {
    var w := After(solve, ops, n).workers[ops[n].worker];
    var k := Key(w.model, w.inputs);
    ReachableSound(solve, ops, n);
    StoredExactly(solve, ops, n, ops[n].worker, k);
    hide AnsweredBefore, Remembers;
    assert Faithful(solve, w.memory) && w.memory.Keys <= After(solve, ops, n).disk.Keys;
  }
}
