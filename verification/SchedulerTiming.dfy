// What the calls of a run are, in closed form: deliveries, timeline, steps, checkpoints
// and their order, for every prefix of complete ticks.
module SchedulerTiming {
  import opened Common
  import opened Divisibility
  import opened SchedulerModel
  import opened SchedulerQuantum

  // ---- Views of a log of calls ----------------------------------------------------------

  /** The deliveries owed at instant k: the outputs of every accepted step that ended at k. */
  function Owed(connections: seq<Connection>, k: nat): Action -> seq<(PortRef, Value)>
  {
    (a: Action) => if a.Step? && a.at + a.span == k && Acceptable(a.result)
         then Deliveries(connections, a.id, a.result.value.outputs) else []
  }

  /** The injections of one origin made at instant k. */
  function Injected(origin: Origin, k: nat): Action -> seq<(PortRef, Value)>
  {
    (a: Action) => if a.Inject? && a.origin == origin && a.at == k then [(a.target, a.value)] else []
  }

  /** The start and span of every step of one component. */
  function StepsOf(id: string): Action -> seq<(nat, nat)>
  {
    (a: Action) => if a.Step? && a.id == id then [(a.at, a.span)] else []
  }

  /** The checkpoints taken of one component. */
  function MarksOf(id: string): Action -> seq<nat>
  {
    (a: Action) => if a.Snapshot? && a.id == id && a.mark.Some? then [a.mark.value] else []
  }

  // ---- The calls of one complete tick -----------------------------------------------------

  function Injections(origin: Origin, items: seq<(PortRef, Value)>, t: nat): (r: seq<Action>)
    ensures |r| == |items|
    ensures forall i :: 0 <= i < |r| ==> r[i] == Inject(origin, items[i].0, items[i].1, t)
  {
    seq(|items|, i requires 0 <= i < |items| => Inject(origin, items[i].0, items[i].1, t))
  }

  /** The call, if any, that one component makes in its turn. */
  function StepTaken(env: Env, quantum: nat, before: World, c: Component, t: nat): seq<Action>
    requires quantum > 0
  {
    var period := Period(c, quantum);
    if before.halt != Going || t % period != 0 then []
    else [Step(c.id, t, period, env.steps(before.trace, c.id, t, period))]
  }

  function StepsTaken(system: System, env: Env, quantum: nat, w: World, n: nat, t: nat): seq<Action>
    requires quantum > 0 && n <= |system.components|
  {
    if n == 0 then []
    else
      StepsTaken(system, env, quantum, w, n - 1, t)
      + StepTaken(env, quantum, StepAll(system, env, quantum, w, n - 1, t), system.components[n - 1], t)
  }

  function Marks(system: System, n: nat, mark: nat): (r: seq<Action>)
    requires n <= |system.components|
    ensures |r| == n
    ensures forall i :: 0 <= i < n ==> r[i] == Snapshot(system.components[i].id, Some(mark))
  {
    seq(n, i requires 0 <= i < n => Snapshot(system.components[i].id, Some(mark)))
  }

  function MarksDue(system: System, e: Experiment, mark: nat): seq<Action>
  {
    if e.checkpointUs.Some? && e.checkpointUs.value > 0 && mark % e.checkpointUs.value == 0
    then Marks(system, |system.components|, mark) else []
  }

  /** What one phase of a tick injects. */
  function ItemsAt(e: Experiment, w: World, origin: Origin, t: nat): seq<(PortRef, Value)>
  {
    match origin
    case Delivered => QueuedAt(w.pending, t)
    case Stimulated => TimelineAt(e.stimuli, t)
    case Faulted => TimelineAt(FaultTimeline(e.faults), t)
  }

  function PhaseCalls(e: Experiment, w: World, origin: Origin, t: nat): seq<Action>
  {
    Injections(origin, ItemsAt(e, w, origin, t), t)
  }

  function TickSteps(system: System, e: Experiment, env: Env, q: nat, w: World, t: nat): seq<Action>
    requires q > 0
  {
    StepsTaken(system, env, q, BeforeSteps(system, e, env, w, t), |system.components|, t)
  }

  lemma {:induction false} InjectAllShape(system: System, env: Env, w: World, origin: Origin, items: seq<(PortRef, Value)>, t: nat)
    requires InjectAll(system, env, w, origin, items, t).halt == Going
    ensures w.halt == Going
    ensures InjectAll(system, env, w, origin, items, t) == w.(trace := w.trace + Injections(origin, items, t))
  {
    if items == [] {
      assert w.trace + [] == w.trace;
    } else {
      var front := items[..|items| - 1];
      InjectAllShape(system, env, w, origin, front, t);
      assert Injections(origin, items, t) == Injections(origin, front, t) + [Inject(origin, items[|items| - 1].0, items[|items| - 1].1, t)];
    }
  }

  lemma {:induction false} StepAllShape(system: System, env: Env, quantum: nat, w: World, n: nat, t: nat)
    requires quantum > 0 && n <= |system.components|
    requires StepAll(system, env, quantum, w, n, t).halt == Going
    ensures w.halt == Going
    ensures StepAll(system, env, quantum, w, n, t).trace == w.trace + StepsTaken(system, env, quantum, w, n, t)
  {
    if n == 0 {
      assert w.trace + [] == w.trace;
    } else {
      StepAllShape(system, env, quantum, w, n - 1, t);
    }
  }

  lemma {:induction false} SnapshotAllShape(system: System, env: Env, w: World, n: nat, mark: nat)
    requires n <= |system.components|
    requires SnapshotAll(system, env, w, n, mark).halt == Going
    ensures w.halt == Going
    ensures SnapshotAll(system, env, w, n, mark) == w.(trace := w.trace + Marks(system, n, mark))
  {
    if n == 0 {
      assert w.trace + [] == w.trace;
    } else {
      SnapshotAllShape(system, env, w, n - 1, mark);
      assert Marks(system, n, mark) == Marks(system, n - 1, mark) + [Snapshot(system.components[n - 1].id, Some(mark))];
    }
  }

  lemma InjectionPhases(system: System, e: Experiment, env: Env, w: World, t: nat)
    requires BeforeSteps(system, e, env, w, t).halt == Going
    ensures w.halt == Going
    ensures BeforeSteps(system, e, env, w, t) ==
      w.(pending := w.pending - {t},
         trace := w.trace + PhaseCalls(e, w, Delivered, t) + PhaseCalls(e, w, Stimulated, t) + PhaseCalls(e, w, Faulted, t))
  {
    var w0 := w.(pending := w.pending - {t});
    var w1 := InjectAll(system, env, w0, Delivered, QueuedAt(w.pending, t), t);
    var w2 := InjectAll(system, env, w1, Stimulated, TimelineAt(e.stimuli, t), t);
    InjectAllShape(system, env, w2, Faulted, TimelineAt(FaultTimeline(e.faults), t), t);
    InjectAllShape(system, env, w1, Stimulated, TimelineAt(e.stimuli, t), t);
    InjectAllShape(system, env, w0, Delivered, QueuedAt(w.pending, t), t);
  }

  /** A tick that completed: its calls, and the queue it leaves. */
  lemma TickShape(system: System, e: Experiment, env: Env, q: nat, w: World, t: nat)
    requires q > 0 && Tick(system, e, env, q, w, t).halt == Going
    ensures w.halt == Going && env.interrupt(t) == NoInterrupt
    ensures var w3 := BeforeSteps(system, e, env, w, t);
            && w3.halt == Going && w3.pending == w.pending - {t}
            && StepAll(system, env, q, w3, |system.components|, t).halt == Going
            && Tick(system, e, env, q, w, t).pending == StepAll(system, env, q, w3, |system.components|, t).pending
    ensures Tick(system, e, env, q, w, t).trace ==
      w.trace + PhaseCalls(e, w, Delivered, t) + PhaseCalls(e, w, Stimulated, t) + PhaseCalls(e, w, Faulted, t)
      + TickSteps(system, e, env, q, w, t) + MarksDue(system, e, t + q)
  {
    hide InjectAll, StepAll, PhaseCalls, BeforeSteps, MarksDue, StepsTaken;
    var body := TickBody(system, e, env, q, w, t);
    var w3 := BeforeSteps(system, e, env, w, t);
    var steps, marks := TickSteps(system, e, env, q, w, t), MarksDue(system, e, t + q);
    CheckpointShape(system, e, env, body, t + q);
    BodyShape(system, e, env, q, w, t);
    StepAllShape(system, env, q, w3, |system.components|, t);
    InjectionPhases(system, e, env, w, t);
  }

  lemma BodyShape(system: System, e: Experiment, env: Env, q: nat, w: World, t: nat)
    requires q > 0 && TickBody(system, e, env, q, w, t).halt == Going
    ensures w.halt == Going && env.interrupt(t) == NoInterrupt
    ensures TickBody(system, e, env, q, w, t) == StepAll(system, env, q, BeforeSteps(system, e, env, w, t), |system.components|, t)
  {
    hide InjectAll, StepAll;
  }

  lemma CheckpointShape(system: System, e: Experiment, env: Env, w: World, mark: nat)
    requires Checkpoint(system, e, env, w, mark).halt == Going
    ensures w.halt == Going
    ensures Checkpoint(system, e, env, w, mark) == w.(trace := w.trace + MarksDue(system, e, mark))
  {
    if e.checkpointUs.Some? && e.checkpointUs.value > 0 && mark % e.checkpointUs.value == 0 {
      SnapshotAllShape(system, env, w, |system.components|, mark);
    } else {
      assert w.trace + [] == w.trace;
    }
  }

  /** Any view of the log grows, in one complete tick, by its views of the five phases. */
  lemma TickView<T>(f: Action -> seq<T>, system: System, e: Experiment, env: Env, q: nat, w: World, t: nat)
    requires q > 0 && Tick(system, e, env, q, w, t).halt == Going
    ensures Project(f, Tick(system, e, env, q, w, t).trace) ==
      Project(f, w.trace)
      + Project(f, PhaseCalls(e, w, Delivered, t)) + Project(f, PhaseCalls(e, w, Stimulated, t)) + Project(f, PhaseCalls(e, w, Faulted, t))
      + Project(f, TickSteps(system, e, env, q, w, t)) + Project(f, MarksDue(system, e, t + q))
  {
    hide *;
    TickShape(system, e, env, q, w, t);
    var a, b, c := PhaseCalls(e, w, Delivered, t), PhaseCalls(e, w, Stimulated, t), PhaseCalls(e, w, Faulted, t);
    var d, m := TickSteps(system, e, env, q, w, t), MarksDue(system, e, t + q);
    ProjectConcat(f, w.trace + a + b + c + d, m);
    ProjectConcat(f, w.trace + a + b + c, d);
    ProjectConcat(f, w.trace + a + b, c);
    ProjectConcat(f, w.trace + a, b);
    ProjectConcat(f, w.trace, a);
  }

  lemma OnlyOnePhase<T>(w: seq<T>, a: seq<T>, b: seq<T>, c: seq<T>, d: seq<T>, m: seq<T>)
    ensures b == c == d == m == [] ==> w + a + b + c + d + m == w + a
    ensures a == c == d == m == [] ==> w + a + b + c + d + m == w + b
    ensures a == b == d == m == [] ==> w + a + b + c + d + m == w + c
    ensures a == b == c == m == [] ==> w + a + b + c + d + m == w + d
    ensures a == b == c == d == [] ==> w + a + b + c + d + m == w + m
  {
    assert w + [] == w;
    assert w + a + [] == w + a && w + b + [] == w + b && w + c + [] == w + c && w + d + [] == w + d;
  }

  // ---- Views of the phases ------------------------------------------------------------------

  lemma InjectionsGrow(o: Origin, front: seq<(PortRef, Value)>, item: (PortRef, Value), t: nat)
    ensures Injections(o, front + [item], t) == Injections(o, front, t) + [Inject(o, item.0, item.1, t)]
  {
  }

  lemma {:induction false} InjectionsView(origin: Origin, k: nat, o: Origin, items: seq<(PortRef, Value)>, t: nat)
    ensures Project(Injected(origin, k), Injections(o, items, t)) == if origin == o && k == t then items else []
  {
    if items == [] {
      ProjectNothing(Injected(origin, k), Injections(o, items, t));
    } else {
      hide *;
      var front, item := items[..|items| - 1], items[|items| - 1];
      var f, last := Injected(origin, k), Inject(o, item.0, item.1, t);
      assert items == front + [item];
      InjectionsView(origin, k, o, front, t);
      InjectionsGrow(o, front, item, t);
      ProjectConcat(f, Injections(o, front, t), [last]);
      ProjectOne(f, last);
      OneInjection(origin, k, o, item, t);
    }
  }

  lemma OneInjection(origin: Origin, k: nat, o: Origin, item: (PortRef, Value), t: nat)
    ensures Injected(origin, k)(Inject(o, item.0, item.1, t)) == if origin == o && k == t then [item] else []
  {
  }

  lemma InjectsForeign(connections: seq<Connection>, id: string, k: nat, log: seq<Action>)
    requires forall i :: 0 <= i < |log| ==> log[i].Inject?
    ensures Project(Owed(connections, k), log) == [] && Project(StepsOf(id), log) == [] && Project(MarksOf(id), log) == []
  {
    ProjectNothing(Owed(connections, k), log);
    ProjectNothing(StepsOf(id), log);
    ProjectNothing(MarksOf(id), log);
  }

  lemma StepsForeign(id: string, origin: Origin, k: nat, log: seq<Action>)
    requires forall i :: 0 <= i < |log| ==> log[i].Step?
    ensures Project(Injected(origin, k), log) == [] && Project(MarksOf(id), log) == []
  {
    ProjectNothing(Injected(origin, k), log);
    ProjectNothing(MarksOf(id), log);
  }

  lemma OthersForeign(connections: seq<Connection>, id: string, origin: Origin, k: nat, log: seq<Action>)
    requires forall i :: 0 <= i < |log| ==> log[i].Snapshot? || log[i].Prepare?
    ensures Project(Owed(connections, k), log) == [] && Project(StepsOf(id), log) == [] && Project(Injected(origin, k), log) == []
    ensures (forall i :: 0 <= i < |log| ==> log[i].Prepare?) ==> Project(MarksOf(id), log) == []
  {
    hide Project, Deliveries, Acceptable;
    ProjectNothing(Owed(connections, k), log);
    ProjectNothing(StepsOf(id), log);
    ProjectNothing(Injected(origin, k), log);
    if forall i :: 0 <= i < |log| ==> log[i].Prepare? {
      ProjectNothing(MarksOf(id), log);
    }
  }

  ghost predicate StepsAt(system: System, quantum: nat, t: nat, log: seq<Action>)
  {
    forall i :: 0 <= i < |log| ==>
      log[i].Step? && log[i].at == t
      && exists j :: 0 <= j < |system.components| && log[i].span == Period(system.components[j], quantum)
  }

  lemma {:induction false} StepsTakenAreSteps(system: System, env: Env, quantum: nat, w: World, n: nat, t: nat)
    requires quantum > 0 && n <= |system.components|
    ensures StepsAt(system, quantum, t, StepsTaken(system, env, quantum, w, n, t))
  {
    hide StepAll;
    if n == 0 {
    } else {
      StepsTakenAreSteps(system, env, quantum, w, n - 1, t);
      var c := system.components[n - 1];
      var last := StepTaken(env, quantum, StepAll(system, env, quantum, w, n - 1, t), c, t);
      assert StepsAt(system, quantum, t, last);
    }
  }

  lemma StepOneQueue(system: System, env: Env, quantum: nat, before: World, c: Component, t: nat, k: nat)
    requires quantum > 0 && StepOne(system, env, quantum, before, c, t).halt == Going
    ensures QueuedAt(StepOne(system, env, quantum, before, c, t).pending, k)
         == QueuedAt(before.pending, k) + Project(Owed(system.connections, k), StepTaken(env, quantum, before, c, t))
  {
    var period := Period(c, quantum);
    if t % period == 0 {
      var a := Step(c.id, t, period, env.steps(before.trace, c.id, t, period));
      ProjectOne(Owed(system.connections, k), a);
    }
  }

  /** The steps of a tick queue exactly what they owe, behind what was queued before. */
  lemma {:induction false} StepsTakenQueue(system: System, env: Env, quantum: nat, w: World, n: nat, t: nat, k: nat)
    requires quantum > 0 && n <= |system.components|
    requires StepAll(system, env, quantum, w, n, t).halt == Going
    ensures QueuedAt(StepAll(system, env, quantum, w, n, t).pending, k)
         == QueuedAt(w.pending, k) + Project(Owed(system.connections, k), StepsTaken(system, env, quantum, w, n, t))
  {
    hide QueuedAt, StepOne, StepTaken, Owed, Project;
    if n == 0 {
      ProjectNothing(Owed(system.connections, k), []);
    } else {
      var before := StepAll(system, env, quantum, w, n - 1, t);
      var c := system.components[n - 1];
      HaltsForGood(system, env, quantum, before, c, t);
      StepsTakenQueue(system, env, quantum, w, n - 1, t, k);
      StepOneQueue(system, env, quantum, before, c, t, k);
      ProjectConcat(Owed(system.connections, k), StepsTaken(system, env, quantum, w, n - 1, t), StepTaken(env, quantum, before, c, t));
    }
  }

  /** A component steps at most once in a tick: exactly when its period divides the instant. */
  lemma {:induction false} StepsTakenView(system: System, env: Env, quantum: nat, w: World, n: nat, t: nat, i: nat)
    requires quantum > 0 && n <= |system.components| && i < |system.components| && ValidSystem(system)
    requires StepAll(system, env, quantum, w, n, t).halt == Going
    ensures var c := system.components[i];
            Project(StepsOf(c.id), StepsTaken(system, env, quantum, w, n, t))
            == if i < n && t % Period(c, quantum) == 0 then [(t, Period(c, quantum))] else []
  {
    hide StepOne, StepsOf, Project, ValidSystem, Period, StepTaken;
    if n != 0 {
      var before := StepAll(system, env, quantum, w, n - 1, t);
      var c := system.components[n - 1];
      HaltsForGood(system, env, quantum, before, c, t);
      StepsTakenView(system, env, quantum, w, n - 1, t, i);
      ProjectConcat(StepsOf(system.components[i].id), StepsTaken(system, env, quantum, w, n - 1, t), StepTaken(env, quantum, before, c, t));
      StepTakenView(system, env, quantum, before, n - 1, t, i);
    } else {
      ProjectNothing(StepsOf(system.components[i].id), []);
    }
  }

  lemma HaltsForGood(system: System, env: Env, quantum: nat, before: World, c: Component, t: nat)
    requires quantum > 0 && StepOne(system, env, quantum, before, c, t).halt == Going
    ensures before.halt == Going
  {
  }

  lemma StepTakenView(system: System, env: Env, quantum: nat, before: World, j: nat, t: nat, i: nat)
    requires quantum > 0 && j < |system.components| && i < |system.components| && ValidSystem(system) && before.halt == Going
    ensures var c := system.components[i];
            Project(StepsOf(c.id), StepTaken(env, quantum, before, system.components[j], t))
            == if i == j && t % Period(c, quantum) == 0 then [(t, Period(c, quantum))] else []
  {
    var c := system.components[j];
    if t % Period(c, quantum) == 0 {
      var a := StepTaken(env, quantum, before, c, t)[0];
      ProjectOne(StepsOf(system.components[i].id), a);
    }
  }

  lemma {:induction false} MarksView(system: System, n: nat, mark: nat, i: nat)
    requires n <= |system.components| && i < |system.components| && ValidSystem(system)
    ensures Project(MarksOf(system.components[i].id), Marks(system, n, mark)) == if i < n then [mark] else []
  {
    if n == 0 {
    } else {
      hide ValidSystem;
      MarksView(system, n - 1, mark, i);
      hide Project, MarksOf;
      var id := system.components[i].id;
      var last := Snapshot(system.components[n - 1].id, Some(mark));
      assert Marks(system, n, mark) == Marks(system, n - 1, mark) + [last];
      ProjectConcat(MarksOf(id), Marks(system, n - 1, mark), [last]);
      ProjectOne(MarksOf(id), last);
      OneMark(id, last.id, mark);
      DistinctIds(system, n - 1, i);
    }
  }

  lemma OneMark(id: string, other: string, mark: nat)
    ensures MarksOf(id)(Snapshot(other, Some(mark))) == if other == id then [mark] else []
  {
  }

  lemma DistinctIds(system: System, j: nat, i: nat)
    requires ValidSystem(system) && j < |system.components| && i < |system.components|
    ensures system.components[j].id == system.components[i].id <==> i == j
  {
  }

  // ---- Views of a complete tick -----------------------------------------------------------------

  lemma MarksDueAreSnapshots(system: System, e: Experiment, mark: nat)
    ensures forall i :: 0 <= i < |MarksDue(system, e, mark)| ==> MarksDue(system, e, mark)[i].Snapshot?
  {
  }

  lemma TickStepsAreSteps(system: System, e: Experiment, env: Env, q: nat, w: World, t: nat)
    requires q > 0
    ensures StepsAt(system, q, t, TickSteps(system, e, env, q, w, t))
    ensures forall i :: 0 <= i < |TickSteps(system, e, env, q, w, t)| ==> TickSteps(system, e, env, q, w, t)[i].Step?
  {
    StepsTakenAreSteps(system, env, q, BeforeSteps(system, e, env, w, t), |system.components|, t);
  }

  lemma PhaseForeign(connections: seq<Connection>, id: string, k: nat, e: Experiment, w: World, origin: Origin, t: nat)
    ensures var log := PhaseCalls(e, w, origin, t);
            Project(Owed(connections, k), log) == [] && Project(StepsOf(id), log) == [] && Project(MarksOf(id), log) == []
  {
    InjectsForeign(connections, id, k, PhaseCalls(e, w, origin, t));
  }

  lemma PhaseView(origin: Origin, k: nat, e: Experiment, w: World, o: Origin, t: nat)
    ensures Project(Injected(origin, k), PhaseCalls(e, w, o, t))
         == if origin == o && k == t then ItemsAt(e, w, o, t) else []
  {
    InjectionsView(origin, k, o, ItemsAt(e, w, o, t), t);
  }

  lemma TickOwed(system: System, e: Experiment, env: Env, q: nat, w: World, t: nat, k: nat)
    requires q > 0 && Tick(system, e, env, q, w, t).halt == Going
    ensures var view := Owed(system.connections, k);
            Project(view, Tick(system, e, env, q, w, t).trace)
            == Project(view, w.trace) + Project(view, TickSteps(system, e, env, q, w, t))
  {
    hide *;
    var f := Owed(system.connections, k);
    TickView(f, system, e, env, q, w, t);
    PhaseForeign(system.connections, "", k, e, w, Delivered, t);
    PhaseForeign(system.connections, "", k, e, w, Stimulated, t);
    PhaseForeign(system.connections, "", k, e, w, Faulted, t);
    MarksDueAreSnapshots(system, e, t + q);
    OthersForeign(system.connections, "", Delivered, k, MarksDue(system, e, t + q));
    OnlyOnePhase(Project(f, w.trace), [], [], [], Project(f, TickSteps(system, e, env, q, w, t)), []);
  }

  lemma TickInjected(system: System, e: Experiment, env: Env, q: nat, w: World, t: nat, origin: Origin, k: nat)
    requires q > 0 && Tick(system, e, env, q, w, t).halt == Going
    ensures Project(Injected(origin, k), Tick(system, e, env, q, w, t).trace)
         == Project(Injected(origin, k), w.trace) + if k == t then ItemsAt(e, w, origin, t) else []
  {
    hide *;
    var f := Injected(origin, k);
    TickView(f, system, e, env, q, w, t);
    PhaseView(origin, k, e, w, Delivered, t);
    PhaseView(origin, k, e, w, Stimulated, t);
    PhaseView(origin, k, e, w, Faulted, t);
    TickStepsAreSteps(system, e, env, q, w, t);
    StepsForeign("", origin, k, TickSteps(system, e, env, q, w, t));
    MarksDueAreSnapshots(system, e, t + q);
    OthersForeign(system.connections, "", origin, k, MarksDue(system, e, t + q));
    OnlyOnePhase(Project(f, w.trace), Project(f, PhaseCalls(e, w, Delivered, t)), Project(f, PhaseCalls(e, w, Stimulated, t)),
                 Project(f, PhaseCalls(e, w, Faulted, t)), [], []);
  }

  lemma TickQueue(system: System, e: Experiment, env: Env, q: nat, w: World, t: nat, k: nat)
    requires q > 0 && Tick(system, e, env, q, w, t).halt == Going
    ensures QueuedAt(Tick(system, e, env, q, w, t).pending, k)
         == (if k == t then [] else QueuedAt(w.pending, k))
            + Project(Owed(system.connections, k), TickSteps(system, e, env, q, w, t))
  {
    hide Tick, BeforeSteps, StepsTaken, StepAll, Project, Owed, PhaseCalls, MarksDue;
    TickShape(system, e, env, q, w, t);
    StepsTakenQueue(system, env, q, BeforeSteps(system, e, env, w, t), |system.components|, t, k);
  }

  lemma TickStepsOf(system: System, e: Experiment, env: Env, q: nat, w: World, t: nat, i: nat)
    requires q > 0 && Tick(system, e, env, q, w, t).halt == Going && ValidSystem(system) && i < |system.components|
    ensures var c := system.components[i];
            Project(StepsOf(c.id), Tick(system, e, env, q, w, t).trace)
            == Project(StepsOf(c.id), w.trace) + if t % Period(c, q) == 0 then [(t, Period(c, q))] else []
  {
    hide Tick, BeforeSteps, StepsTaken, StepAll, StepsOf, Project, ValidSystem, PhaseCalls, MarksDue, Period;
    var id := system.components[i].id;
    var f := StepsOf(id);
    TickShape(system, e, env, q, w, t);
    TickView(f, system, e, env, q, w, t);
    PhaseForeign(system.connections, id, 0, e, w, Delivered, t);
    PhaseForeign(system.connections, id, 0, e, w, Stimulated, t);
    PhaseForeign(system.connections, id, 0, e, w, Faulted, t);
    MarksDueAreSnapshots(system, e, t + q);
    OthersForeign(system.connections, id, Delivered, 0, MarksDue(system, e, t + q));
    StepsTakenView(system, env, q, BeforeSteps(system, e, env, w, t), |system.components|, t, i);
    OnlyOnePhase(Project(f, w.trace), [], [], [], Project(f, TickSteps(system, e, env, q, w, t)), []);
  }

  function MarkDue(e: Experiment, mark: nat): seq<nat>
  {
    if e.checkpointUs.Some? && e.checkpointUs.value > 0 && mark % e.checkpointUs.value == 0 then [mark] else []
  }

  lemma MarksDueView(system: System, e: Experiment, mark: nat, i: nat)
    requires ValidSystem(system) && i < |system.components|
    ensures Project(MarksOf(system.components[i].id), MarksDue(system, e, mark)) == MarkDue(e, mark)
  {
    if MarksDue(system, e, mark) != [] {
      MarksView(system, |system.components|, mark, i);
    }
  }

  lemma TickMarksOf(system: System, e: Experiment, env: Env, q: nat, w: World, t: nat, i: nat)
    requires q > 0 && Tick(system, e, env, q, w, t).halt == Going && ValidSystem(system) && i < |system.components|
    ensures var view := MarksOf(system.components[i].id);
            Project(view, Tick(system, e, env, q, w, t).trace) == Project(view, w.trace) + MarkDue(e, t + q)
  {
    hide *;
    var id := system.components[i].id;
    var f := MarksOf(id);
    TickView(f, system, e, env, q, w, t);
    PhaseForeign(system.connections, id, 0, e, w, Delivered, t);
    PhaseForeign(system.connections, id, 0, e, w, Stimulated, t);
    PhaseForeign(system.connections, id, 0, e, w, Faulted, t);
    TickStepsAreSteps(system, e, env, q, w, t);
    StepsForeign(id, Delivered, 0, TickSteps(system, e, env, q, w, t));
    MarksDueView(system, e, t + q, i);
    OnlyOnePhase(Project(f, w.trace), [], [], [], [], Project(f, MarksDue(system, e, t + q)));
  }
}
