// The life of the adapters on every exit path of a run, and what its verdict means.
module SchedulerProtocol {
  import opened Common
  import opened Divisibility
  import opened SchedulerItems
  import opened SchedulerModel
  import opened SchedulerQuantum
  import opened SchedulerLossless
  import opened SchedulerTiming
  import opened SchedulerTheorems

  predicate Uses(a: Action, id: string)
  {
    match a
    case Prepare(x, _) => x == id
    case Inject(_, target, _, _) => target.component == id
    case Step(x, _, _, _) => x == id
    case Snapshot(x, _) => x == id
    case Shutdown(x) => x == id
    case Finalize(_) => false
  }

  /** The calls a run may make while its loop is going. */
  predicate LoopCall(system: System, a: Action)
  {
    match a
    case Inject(_, target, _, _) => target.component in Ids(system)
    case Step(id, _, _, _) => id in Ids(system)
    case Snapshot(id, mark) => id in Ids(system) && mark.Some?
    case _ => false
  }

  ghost predicate PreparedBefore(log: seq<Action>, j: nat, id: string)
    requires j <= |log|
  {
    exists i :: 0 <= i < j && log[i] == Prepare(id, true)
  }

  /** Every adapter whose prepare succeeded is shut down later. */
  ghost predicate AllShutDown(log: seq<Action>)
  {
    forall i :: 0 <= i < |log| && log[i].Prepare? && log[i].ok ==> exists j :: i < j < |log| && log[j] == Shutdown(log[i].id)
  }

  /** Only prepared adapters are shut down, and after that nothing uses them, not even a second shutdown. */
  ghost predicate ShutdownIsLast(log: seq<Action>)
  {
    forall j :: 0 <= j < |log| && log[j].Shutdown? ==>
      PreparedBefore(log, j, log[j].id) && forall k :: j < k < |log| ==> !Uses(log[k], log[j].id)
  }

  /** Nothing is injected or stepped before all adapters are prepared. */
  ghost predicate PreparedFirst(system: System, log: seq<Action>)
  {
    forall j :: 0 <= j < |log| && (log[j].Inject? || log[j].Step?) ==>
      forall c :: 0 <= c < |system.components| ==> PreparedBefore(log, j, system.components[c].id)
  }

  /** The evidence is finalized exactly once, at the very end. */
  ghost predicate FinalizedOnce(log: seq<Action>, status: RunStatus)
  {
    && |log| > 0 && log[|log| - 1] == Finalize(status)
    && forall i :: 0 <= i < |log| - 1 ==> !log[i].Finalize?
  }

  /** The order in which the adapters of a run must live. */
  ghost predicate Protocol(system: System, log: seq<Action>, status: RunStatus)
  {
    && AllShutDown(log) && ShutdownIsLast(log) && PreparedFirst(system, log) && FinalizedOnce(log, status)
    && status != RUNNING
    && (status == BLOCKED ==> forall i :: 0 <= i < |log| ==> log[i].Prepare? || log[i].Shutdown? || log[i].Finalize?)
  }

  // ---- Preparation ---------------------------------------------------------------------------

  lemma {:induction false} PrepareShape(system: System, env: Env, n: nat)
    requires n <= |system.components|
    ensures var p := PrepareUpTo(system, env, n);
            && |p.trace| <= n
            && (forall i :: 0 <= i < |p.trace| ==> p.trace[i].Prepare? && p.trace[i].id == system.components[i].id)
            && (p.readiness == Ready ==> |p.trace| == n && forall i :: 0 <= i < n ==> p.trace[i].ok)
  {
    if n == 0 {
    } else {
      PrepareShape(system, env, n - 1);
    }
  }

  /** Component m is the one that blocks: all before it got prepared and its backend is missing. */
  predicate Blocks(system: System, env: Env, m: nat)
    requires m < |system.components|
  {
    PrepareUpTo(system, env, m).readiness == Ready && !env.available(system.components[m].backend)
  }

  lemma BlocksNow(system: System, env: Env, n: nat)
    requires n < |system.components|
    ensures PrepareUpTo(system, env, n + 1).readiness == Unavailable
       <==> PrepareUpTo(system, env, n).readiness == Unavailable || Blocks(system, env, n)
  {
  }

  /** A run is blocked exactly when some component blocks it. */
  lemma {:induction false} BlockedExactly(system: System, env: Env, n: nat)
    requires n <= |system.components|
    ensures PrepareUpTo(system, env, n).readiness == Unavailable <==> exists m :: 0 <= m < n && Blocks(system, env, m)
  {
    if n == 0 {
    } else {
      BlockedExactly(system, env, n - 1);
      BlocksNow(system, env, n - 1);
      hide *;
      if exists m :: 0 <= m < n && Blocks(system, env, m) {
        var m :| 0 <= m < n && Blocks(system, env, m);
        assert m < n - 1 || Blocks(system, env, n - 1);
      }
    }
  }

  lemma {:induction false} HeldMembers(log: seq<Action>)
    ensures forall id :: id in Held(log) <==> exists i :: 0 <= i < |log| && log[i] == Prepare(id, true)
  {
    if log == [] {
    } else {
      var front, last := log[..|log| - 1], log[|log| - 1];
      HeldMembers(front);
      forall id
        ensures id in Held(log) <==> exists i :: 0 <= i < |log| && log[i] == Prepare(id, true)
      {
        assert id in Held(log) <==> id in Held(front) || (last.Prepare? && last.ok && last.id == id);
        if exists i :: 0 <= i < |log| && log[i] == Prepare(id, true) {
          var i :| 0 <= i < |log| && log[i] == Prepare(id, true);
          assert i < |log| - 1 ==> front[i] == Prepare(id, true);
        }
      }
    }
  }

  lemma HeldStep(log: seq<Action>)
    ensures log == [] ==> Held(log) == []
    ensures log != [] ==>
      var front, last := log[..|log| - 1], log[|log| - 1];
      Held(log) == if last.Prepare? && last.ok then Held(front) + [last.id] else Held(front)
  {
    if log == [] {
    } else {
      assert Held(log[..|log| - 1]) + [] == Held(log[..|log| - 1]);
    }
  }

  lemma {:induction false} HeldDistinct(log: seq<Action>)
    requires forall i, j :: 0 <= i < j < |log| && log[i].Prepare? && log[j].Prepare? ==> log[i].id != log[j].id
    ensures Distinct(Held(log))
  {
    hide Held;
    HeldStep(log);
    if log == [] {
    } else {
      var front, last := log[..|log| - 1], log[|log| - 1];
      HeldDistinct(front);
      HeldMembers(front);
      if last.Prepare? && last.ok {
        assert last.id !in Held(front);
        assert forall i :: 0 <= i < |Held(front)| ==> Held(front)[i] in Held(front);
      }
    }
  }

  // ---- The calls of the loop --------------------------------------------------------------------

  /** later extends earlier by calls of the loop only. */
  ghost predicate Extends(system: System, earlier: seq<Action>, later: seq<Action>)
  {
    && |earlier| <= |later| && later[..|earlier|] == earlier
    && forall i :: |earlier| <= i < |later| ==> LoopCall(system, later[i])
  }

  lemma ExtendsTransitive(system: System, a: seq<Action>, b: seq<Action>, c: seq<Action>)
    requires Extends(system, a, b) && Extends(system, b, c)
    ensures Extends(system, a, c)
  {
    assert c[..|a|] == b[..|a|];
    forall i | |a| <= i < |c|
      ensures LoopCall(system, c[i])
    {
      if i < |b| {
        assert c[i] == c[..|b|][i];
      }
    }
  }

  lemma {:induction false} InjectAllExtends(system: System, env: Env, w: World, origin: Origin, items: seq<(PortRef, Value)>, t: nat)
    ensures Extends(system, w.trace, InjectAll(system, env, w, origin, items, t).trace)
  {
    if items == [] {
    } else {
      InjectAllExtends(system, env, w, origin, items[..|items| - 1], t);
    }
  }

  lemma {:induction false} StepAllExtends(system: System, env: Env, q: nat, w: World, n: nat, t: nat)
    requires q > 0 && n <= |system.components|
    ensures Extends(system, w.trace, StepAll(system, env, q, w, n, t).trace)
  {
    if n == 0 {
    } else {
      StepAllExtends(system, env, q, w, n - 1, t);
      assert system.components[n - 1].id in Ids(system);
    }
  }

  lemma {:induction false} SnapshotAllExtends(system: System, env: Env, w: World, n: nat, mark: nat)
    requires n <= |system.components|
    ensures Extends(system, w.trace, SnapshotAll(system, env, w, n, mark).trace)
  {
    if n == 0 {
    } else {
      SnapshotAllExtends(system, env, w, n - 1, mark);
      assert system.components[n - 1].id in Ids(system);
    }
  }

  lemma BeforeStepsExtends(system: System, e: Experiment, env: Env, w: World, t: nat)
    ensures Extends(system, w.trace, BeforeSteps(system, e, env, w, t).trace)
  {
    hide InjectAll, Extends, TimelineAt, FaultTimeline;
    var w0 := w.(pending := w.pending - {t});
    var w1 := InjectAll(system, env, w0, Delivered, QueuedAt(w.pending, t), t);
    var w2 := InjectAll(system, env, w1, Stimulated, TimelineAt(e.stimuli, t), t);
    InjectAllExtends(system, env, w0, Delivered, QueuedAt(w.pending, t), t);
    InjectAllExtends(system, env, w1, Stimulated, TimelineAt(e.stimuli, t), t);
    InjectAllExtends(system, env, w2, Faulted, TimelineAt(FaultTimeline(e.faults), t), t);
    ExtendsTransitive(system, w.trace, w1.trace, w2.trace);
    ExtendsTransitive(system, w.trace, w2.trace, BeforeSteps(system, e, env, w, t).trace);
  }

  lemma TickExtends(system: System, e: Experiment, env: Env, q: nat, w: World, t: nat)
    requires q > 0
    ensures Extends(system, w.trace, Tick(system, e, env, q, w, t).trace)
  {
    hide StepAll, SnapshotAll, InjectAll, LoopCall;
    var body := TickBody(system, e, env, q, w, t);
    if w.halt == Going && env.interrupt(t) == NoInterrupt {
      var w3 := BeforeSteps(system, e, env, w, t);
      BeforeStepsExtends(system, e, env, w, t);
      StepAllExtends(system, env, q, w3, |system.components|, t);
      ExtendsTransitive(system, w.trace, w3.trace, body.trace);
    }
    SnapshotAllExtends(system, env, body, |system.components|, t + q);
    ExtendsTransitive(system, w.trace, body.trace, SnapshotAll(system, env, body, |system.components|, t + q).trace);
  }

  lemma {:induction false} LoopExtends(system: System, e: Experiment, env: Env, q: nat, w: World, n: nat)
    requires q > 0
    ensures Extends(system, w.trace, Loop(system, e, env, q, w, n).trace)
  {
    hide Tick;
    if n == 0 {
    } else {
      LoopExtends(system, e, env, q, w, n - 1);
      TickExtends(system, e, env, q, Loop(system, e, env, q, w, n - 1), (n - 1) * q);
      ExtendsTransitive(system, w.trace, Loop(system, e, env, q, w, n - 1).trace, Loop(system, e, env, q, w, n).trace);
    }
  }

  // ---- Closing -------------------------------------------------------------------------------------

  /** A log that can be closed: distinct prepares, all of them before the first call of the loop. */
  ghost predicate Closable(system: System, log: seq<Action>)
  {
    && (forall i :: 0 <= i < |log| ==> log[i].Prepare? || LoopCall(system, log[i]))
    && (forall i, j :: 0 <= i < j < |log| && log[i].Prepare? && log[j].Prepare? ==> log[i].id != log[j].id)
    && (forall j :: 0 <= j < |log| && !log[j].Prepare? ==>
          forall c :: 0 <= c < |system.components| ==> PreparedBefore(log, j, system.components[c].id))
  }

  lemma PreparedClosable(system: System, env: Env)
    requires ValidSystem(system)
    ensures Closable(system, PrepareUpTo(system, env, |system.components|).trace)
  {
    PrepareShape(system, env, |system.components|);
  }

  lemma LoopClosable(system: System, env: Env, later: seq<Action>)
    requires ValidSystem(system)
    requires PrepareUpTo(system, env, |system.components|).readiness == Ready
    requires Extends(system, PrepareUpTo(system, env, |system.components|).trace, later)
    ensures Closable(system, later)
  {
    hide PrepareUpTo;
    var start := PrepareUpTo(system, env, |system.components|).trace;
    PrepareShape(system, env, |system.components|);
    assert forall i :: 0 <= i < |start| ==> later[i] == later[..|start|][i] == start[i];
    forall j, c | 0 <= j < |later| && !later[j].Prepare? && 0 <= c < |system.components|
      ensures PreparedBefore(later, j, system.components[c].id)
    {
      assert later[c] == Prepare(system.components[c].id, true);
    }
  }

  /** The four stretches of a closed log. */
  ghost predicate ClosedShape(log: seq<Action>, ids: seq<string>, d: nat, all: seq<Action>, status: RunStatus)
  {
    && |log| <= d && |all| == d + |ids| + 1
    && (forall i :: 0 <= i < |log| ==> all[i] == log[i])
    && (forall i :: |log| <= i < d ==> all[i].Snapshot?)
    && (forall i :: d <= i < d + |ids| ==> all[i] == Shutdown(ids[i - d]))
    && all[d + |ids|] == Finalize(status)
  }

  lemma CloseShape(log: seq<Action>, metrics: map<PortRef, Value>, status: RunStatus, salvage: bool)
    ensures ClosedShape(log, Held(log), |log| + (if salvage then |Held(log)| else 0), Close(log, metrics, status, salvage).trace, status)
  {
    hide Held;
  }

  lemma ClosedAllShutDown(log: seq<Action>, ids: seq<string>, d: nat, all: seq<Action>, status: RunStatus)
    requires ClosedShape(log, ids, d, all, status)
    requires forall i :: 0 <= i < |log| && log[i].Prepare? && log[i].ok ==> log[i].id in ids
    ensures AllShutDown(all)
  {
    forall i | 0 <= i < |all| && all[i].Prepare? && all[i].ok
      ensures exists j :: i < j < |all| && all[j] == Shutdown(all[i].id)
    {
      assert log[i] == all[i];
      var m :| 0 <= m < |ids| && ids[m] == all[i].id;
      assert all[d + m] == Shutdown(all[i].id);
    }
  }

  lemma ClosedShutdownIsLast(log: seq<Action>, ids: seq<string>, d: nat, all: seq<Action>, status: RunStatus)
    requires ClosedShape(log, ids, d, all, status)
    requires forall i :: 0 <= i < |log| ==> !log[i].Shutdown?
    requires forall i, j :: 0 <= i < j < |ids| ==> ids[i] != ids[j]
    requires forall id :: id in ids ==> PreparedBefore(log, |log|, id)
    ensures ShutdownIsLast(all)
  {
    forall j | 0 <= j < |all| && all[j].Shutdown?
      ensures PreparedBefore(all, j, all[j].id) && forall k :: j < k < |all| ==> !Uses(all[k], all[j].id)
    {
      assert d <= j < d + |ids|;
      assert ids[j - d] in ids;
      var i :| 0 <= i < |log| && log[i] == Prepare(all[j].id, true);
      assert all[i] == Prepare(all[j].id, true);
      forall k | j < k < |all|
        ensures !Uses(all[k], all[j].id)
      {
        if k < d + |ids| {
          assert ids[j - d] != ids[k - d];
        }
      }
    }
  }

  lemma ClosedPreparedFirst(system: System, log: seq<Action>, ids: seq<string>, d: nat, all: seq<Action>, status: RunStatus)
    requires ClosedShape(log, ids, d, all, status) && Closable(system, log)
    ensures PreparedFirst(system, all)
  {
    hide LoopCall;
    forall j, c | 0 <= j < |all| && (all[j].Inject? || all[j].Step?) && 0 <= c < |system.components|
      ensures PreparedBefore(all, j, system.components[c].id)
    {
      assert j < |log| && log[j] == all[j];
      assert PreparedBefore(log, j, system.components[c].id);
      var i :| 0 <= i < j && log[i] == Prepare(system.components[c].id, true);
      assert all[i] == log[i];
    }
  }

  lemma CloseFollowsProtocol(system: System, log: seq<Action>, metrics: map<PortRef, Value>, status: RunStatus, salvage: bool)
    requires Closable(system, log) && status != RUNNING
    requires status == BLOCKED ==> !salvage && forall i :: 0 <= i < |log| ==> log[i].Prepare?
    ensures Protocol(system, Close(log, metrics, status, salvage).trace, status)
  {
    hide LoopCall, Close, Held, AllShutDown, ShutdownIsLast, PreparedFirst;
    var all := Close(log, metrics, status, salvage).trace;
    var ids := Held(log);
    var d := |log| + (if salvage then |ids| else 0);
    CloseShape(log, metrics, status, salvage);
    HeldMembers(log);
    HeldDistinct(log);
    LoopCallKinds(system, log);
    forall i | 0 <= i < |log| && log[i].Prepare? && log[i].ok
      ensures log[i].id in ids
    {
      assert log[i] == Prepare(log[i].id, true);
    }
    ClosedAllShutDown(log, ids, d, all, status);
    ClosedShutdownIsLast(log, ids, d, all, status);
    ClosedPreparedFirst(system, log, ids, d, all, status);
  }

  lemma LoopCallKinds(system: System, log: seq<Action>)
    requires forall i :: 0 <= i < |log| ==> log[i].Prepare? || LoopCall(system, log[i])
    ensures forall i :: 0 <= i < |log| ==> !log[i].Shutdown? && !log[i].Finalize?
  {
  }

  /** Whatever way a run ends, its adapters lived by the protocol. */
  lemma EveryExitFollowsProtocol(system: System, e: Experiment, env: Env)
    requires ValidSystem(system) && e.macroStepUs > 0
    ensures var r := RunSpec(system, e, env); Protocol(system, r.trace, r.status)
  {
    hide Loop, PrepareUpTo, Close, Judge, Protocol, Closable, Quantum;
    var prepared := PrepareUpTo(system, env, |system.components|);
    PrepareShape(system, env, |system.components|);
    PreparedClosable(system, env);
    match prepared.readiness
    case Unavailable =>
      CloseFollowsProtocol(system, prepared.trace, map[], BLOCKED, false);
    case PrepareFailed =>
      CloseFollowsProtocol(system, prepared.trace, map[], FAILED, true);
    case Ready =>
      var q := Quantum(system, e);
      var w := Loop(system, e, env, q, StartWorld(prepared.trace), TickCount(e.durationUs, q));
      LoopExtends(system, e, env, q, StartWorld(prepared.trace), TickCount(e.durationUs, q));
      LoopClosable(system, env, w.trace);
      CloseFollowsProtocol(system, w.trace, w.metrics, CANCELLED, false);
      CloseFollowsProtocol(system, w.trace, w.metrics, FAILED, true);
      CloseFollowsProtocol(system, w.trace, w.metrics, FAILED, false);
      CloseFollowsProtocol(system, w.trace, w.metrics, PASSED, false);
  }

  // ---- Verdict ----------------------------------------------------------------------------------------

  /** The verdict holds exactly when every assertion could be judged and every critical one holds. */
  lemma {:induction false} JudgeMeans(env: Env, metrics: map<PortRef, Value>, assertions: seq<Assertion>)
    ensures Judge(env, metrics, assertions) == Some(true) <==>
      forall i :: 0 <= i < |assertions| ==>
        var a := assertions[i];
        var verdict := Evaluate(env, Actual(metrics, a.metric), a.operator, a.expected);
        verdict.Some? && (a.critical ==> verdict.value)
  {
    if assertions == [] {
    } else {
      var front := assertions[..|assertions| - 1];
      JudgeMeans(env, metrics, front);
      forall i | 0 <= i < |front|
        ensures front[i] == assertions[i]
      {
      }
      var a := assertions[|assertions| - 1];
      var verdict := Evaluate(env, Actual(metrics, a.metric), a.operator, a.expected);
      hide Evaluate;
      if Judge(env, metrics, assertions) != Some(true) && Judge(env, metrics, front) == Some(true) {
        assert !(verdict.Some? && (a.critical ==> verdict.value));
      }
    }
  }

  // ---- Passed runs -----------------------------------------------------------------------------------

  lemma TickCountExact(duration: nat, q: nat)
    requires q > 0 && duration % q == 0
    ensures TickCount(duration, q) * q == duration
  {
    var m := duration / q;
    assert duration + q - 1 == q * m + (q - 1);
    QuotientUnique(duration + q - 1, q, m, q - 1);
  }

  /**
    A run that passed had every tick complete: its log is the log of a complete loop over the whole
    duration, followed by shutdowns and the finalize call alone.
   */
  lemma PassedRun(system: System, e: Experiment, env: Env)
    requires ValidSystem(system) && ValidExperiment(e) && RunSpec(system, e, env).status == PASSED
    ensures var q := Quantum(system, e);
            var start := PrepareUpTo(system, env, |system.components|).trace;
            var n := TickCount(e.durationUs, q);
            var w := Loop(system, e, env, q, StartWorld(start), n);
            && CompleteTicks(system, e, env, q, start, n) && n * q == e.durationUs
            && Judge(env, w.metrics, e.assertions) == Some(true)
            && RunSpec(system, e, env).trace == w.trace + Shutdowns(Held(w.trace)) + [Finalize(PASSED)]
  {
    hide Loop, Judge, Held, PrepareUpTo;
    var q := Quantum(system, e);
    QuantumIsLongestFit(system, e);
    DividesTransitive(q, e.macroStepUs, e.durationUs);
    TickCountExact(e.durationUs, q);
    PrepareShape(system, env, |system.components|);
    var start := PrepareUpTo(system, env, |system.components|).trace;
    assert forall a <- start :: a.Prepare?;
    var w := Loop(system, e, env, q, StartWorld(start), TickCount(e.durationUs, q));
    assert w.trace + [] == w.trace;
  }

  lemma TailForeign<T>(f: Action -> seq<T>, log: seq<Action>, ids: seq<string>, status: RunStatus)
    requires forall a: Action :: a.Shutdown? || a.Finalize? ==> f(a) == []
    ensures Project(f, log + Shutdowns(ids) + [Finalize(status)]) == Project(f, log)
  {
    ProjectConcat(f, log + Shutdowns(ids), [Finalize(status)]);
    ProjectConcat(f, log, Shutdowns(ids));
    ProjectNothing(f, Shutdowns(ids));
    ProjectOne(f, Finalize(status));
  }

  /**
    The whole log of a passed run, at any instant k and for any component i: exactly-once delivery,
    the timeline on the grid, steps that tile the duration, and checkpoints at every interval.
   */
  lemma PassedRunLedger(system: System, e: Experiment, env: Env, k: nat, i: nat)
    requires ValidSystem(system) && ValidExperiment(e) && RunSpec(system, e, env).status == PASSED
    requires i < |system.components|
    ensures var log := RunSpec(system, e, env).trace;
            var q := Quantum(system, e);
            var c := system.components[i];
            var s := if c.stepUs.Some? then c.stepUs.value else q;
            var stimulated, faulted := Project(Injected(Stimulated, k), log), Project(Injected(Faulted, k), log);
            && Project(Injected(Delivered, k), log) == (if k < e.durationUs then Project(Owed(system.connections, k), log) else [])
            && (if k < e.durationUs && k % q == 0 then
                  StimuliListed(e.stimuli, k, stimulated) && FaultsListed(e.faults, k, faulted)
                else stimulated == [] && faulted == [])
            && s > 0 && Project(StepsOf(c.id), log) == Tiles(s, Ceiling(e.durationUs, s))
            && Project(MarksOf(c.id), log) == CheckpointsUpTo(e, e.durationUs)
  {
    hide Loop, RunSpec, Project, CompleteTicks, Tiles, CheckpointsUpTo, StimuliListed, FaultsListed;
    var q := Quantum(system, e);
    var start := PrepareUpTo(system, env, |system.components|).trace;
    var n := TickCount(e.durationUs, q);
    var w := Loop(system, e, env, q, StartWorld(start), n);
    var id := system.components[i].id;
    DeclaredPeriod(system, q, i);
    PassedRun(system, e, env);
    DeliveryLedger(system, e, env, q, start, n, k);
    TimelineLedger(system, e, env, q, start, n, k);
    StepsTile(system, e, env, q, start, n, i);
    CheckpointLedger(system, e, env, q, start, n, i);
    var ids := Held(w.trace);
    TailForeign(Injected(Delivered, k), w.trace, ids, PASSED);
    TailForeign(Injected(Stimulated, k), w.trace, ids, PASSED);
    TailForeign(Injected(Faulted, k), w.trace, ids, PASSED);
    TailForeign(Owed(system.connections, k), w.trace, ids, PASSED);
    TailForeign(StepsOf(id), w.trace, ids, PASSED);
    TailForeign(MarksOf(id), w.trace, ids, PASSED);
  }

  /** The period of a component: the one it declares, or the quantum. */
  lemma DeclaredPeriod(system: System, q: nat, i: nat)
    requires ValidSystem(system) && i < |system.components| && q > 0
    ensures var c := system.components[i];
            Period(c, q) == (if c.stepUs.Some? then c.stepUs.value else q) && Period(c, q) > 0
  {
    assert system.components[i] in system.components;
  }

  // ---- Whole runs at a microsecond ------------------------------------------------------------------

  /**
    Ticking at the quantum instead of every microsecond changes nothing in the outcome of a run -
    status, calls and metrics - whatever way it ends, when every component declares a period and the
    timeline is aligned to the quantum.
   */
  lemma RunIsLossless(system: System, e: Experiment, env: Env)
    requires ValidExperiment(e) && Fine(system, e, env, Quantum(system, e), e.durationUs)
    ensures RunSpec(system, e, env) == RunAt(system, e, env, 1)
  {
    hide Loop, PrepareUpTo, Close, Judge, Fine;
    var q := Quantum(system, e);
    QuantumIsLongestFit(system, e);
    DividesTransitive(q, e.macroStepUs, e.durationUs);
    TickCountExact(e.durationUs, q);
    var prepared := PrepareUpTo(system, env, |system.components|);
    GcdTickingIsLossless(system, e, env, q, e.durationUs, prepared.trace, TickCount(e.durationUs, q));
    assert TickCount(e.durationUs, 1) == e.durationUs;
  }
}
