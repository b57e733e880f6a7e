// What a run leaves behind, read off its log of calls: every answer it got, why it stopped, the metrics
// it kept, and the status it reports.
module SchedulerLogs {
  import opened Common
  import opened SchedulerItems
  import opened SchedulerModel
  import opened SchedulerQuantum
  import opened SchedulerLossless
  import opened SchedulerTiming
  import opened SchedulerTheorems
  import opened SchedulerProtocol
  import opened SchedulerWholeRuns

  // ---- Answers -----------------------------------------------------------------------------------------

  /** A step that returned finite outputs and metrics and artifacts that can be recorded. */
  predicate GoodStep(r: Option<StepResult>)
  {
    && r.Some? && r.value.artifactsOk
    && (forall i :: 0 <= i < |r.value.outputs| ==> !r.value.outputs[i].1.NonFinite?)
    && (forall i :: 0 <= i < |r.value.metrics| ==> !r.value.metrics[i].1.NonFinite?)
  }

  /** Call i of a log is the adapter's answer to the calls before it. */
  ghost predicate Answered(env: Env, log: seq<Action>, i: nat)
    requires i < |log|
  {
    match log[i]
    case Prepare(id, ok) => ok == env.prepares(log[..i], id)
    case Step(id, at, span, result) => result == env.steps(log[..i], id, at, span)
    case _ => true
  }

  /** Call i of a log raised. */
  ghost predicate Failed(env: Env, log: seq<Action>, i: nat)
    requires i < |log|
  {
    match log[i]
    case Prepare(_, ok) => !ok
    case Inject(_, target, value, at) => !env.injects(log[..i], target, value, at)
    case Step(_, _, _, result) => !GoodStep(result)
    case Snapshot(id, Some(mark)) => !env.snapshots(log[..i], id, mark)
    case _ => false
  }

  ghost predicate FailedLast(env: Env, log: seq<Action>)
  {
    |log| > 0 && Failed(env, log, |log| - 1)
  }

  /** Every call is answered, and none follows one that raised. */
  ghost predicate Honest(env: Env, log: seq<Action>)
  {
    && (forall i :: 0 <= i < |log| ==> Answered(env, log, i))
    && (forall i :: 0 <= i < |log| - 1 ==> !Failed(env, log, i))
  }

  lemma OneMoreCall(env: Env, log: seq<Action>, a: Action)
    requires Honest(env, log) && !FailedLast(env, log)
    ensures var more := log + [a];
            && (Honest(env, more) <==> Answered(env, more, |log|))
            && (FailedLast(env, more) <==> Failed(env, more, |log|)) && more[..|log|] == log
  {
    var more := log + [a];
    assert more[..|log|] == log;
    forall i | 0 <= i < |log|
      ensures (Answered(env, more, i) <==> Answered(env, log, i)) && (Failed(env, more, i) <==> Failed(env, log, i))
    {
      assert more[..i] == log[..i];
    }
  }

  /** A world on its way: its log is honest, and it goes on exactly as long as nothing raised. */
  ghost predicate OnItsWay(env: Env, w: World)
  {
    Honest(env, w.trace) && w.halt == (if FailedLast(env, w.trace) then Raised else Going)
  }

  ghost predicate KnownItems(system: System, items: seq<(PortRef, Value)>)
  {
    forall i :: 0 <= i < |items| ==> items[i].0.component in Ids(system)
  }

  lemma {:induction false} InjectAllOnItsWay(system: System, env: Env, w: World, origin: Origin, items: seq<(PortRef, Value)>, t: nat)
    requires OnItsWay(env, w) && KnownItems(system, items)
    ensures OnItsWay(env, InjectAll(system, env, w, origin, items, t))
  {
    hide Honest, FailedLast, Ids;
    if items == [] {
    } else {
      var front, last := items[..|items| - 1], items[|items| - 1];
      InjectAllOnItsWay(system, env, w, origin, front, t);
      var before := InjectAll(system, env, w, origin, front, t);
      if before.halt == Going {
        OneMoreCall(env, before.trace, Inject(origin, last.0, last.1, t));
      }
    }
  }

  lemma GoodIsAcceptable(r: Option<StepResult>)
    ensures Acceptable(r) <==> GoodStep(r)
  {
  }

  lemma {:induction false} StepAllOnItsWay(system: System, env: Env, q: nat, w: World, n: nat, t: nat)
    requires q > 0 && n <= |system.components| && OnItsWay(env, w)
    ensures OnItsWay(env, StepAll(system, env, q, w, n, t))
  {
    hide Honest, FailedLast, GoodStep, Acceptable, Record, Enqueue, Deliveries;
    if n == 0 {
    } else {
      StepAllOnItsWay(system, env, q, w, n - 1, t);
      var before, c := StepAll(system, env, q, w, n - 1, t), system.components[n - 1];
      if before.halt == Going && t % Period(c, q) == 0 {
        var result := env.steps(before.trace, c.id, t, Period(c, q));
        OneMoreCall(env, before.trace, Step(c.id, t, Period(c, q), result));
        GoodIsAcceptable(result);
      }
    }
  }

  lemma {:induction false} SnapshotAllOnItsWay(system: System, env: Env, w: World, n: nat, mark: nat)
    requires n <= |system.components| && OnItsWay(env, w)
    ensures OnItsWay(env, SnapshotAll(system, env, w, n, mark))
  {
    hide Honest, FailedLast;
    if n == 0 {
    } else {
      SnapshotAllOnItsWay(system, env, w, n - 1, mark);
      var before := SnapshotAll(system, env, w, n - 1, mark);
      if before.halt == Going {
        OneMoreCall(env, before.trace, Snapshot(system.components[n - 1].id, Some(mark)));
      }
    }
  }

  // ---- Only known targets ------------------------------------------------------------------------------------

  ghost predicate KnownConnections(system: System)
  {
    forall c <- system.connections :: c.target.component in Ids(system)
  }

  ghost predicate KnownQueue(system: System, w: World)
  {
    forall k <- w.pending :: KnownItems(system, w.pending[k])
  }

  lemma DeliveriesKnown(system: System, id: string, outputs: seq<(string, Value)>)
    requires KnownConnections(system)
    ensures KnownItems(system, Deliveries(system.connections, id, outputs))
  {
    hide Ids, Deliveries;
    var ix := DeliveriesAre(system.connections, id, outputs);
    var r := Deliveries(system.connections, id, outputs);
    forall a | 0 <= a < |r|
      ensures r[a].0.component in Ids(system)
    {
      assert system.connections[ix[a].1] in system.connections;
    }
  }

  lemma {:induction false} StepAllKnown(system: System, env: Env, q: nat, w: World, n: nat, t: nat)
    requires q > 0 && n <= |system.components| && KnownConnections(system) && KnownQueue(system, w)
    ensures KnownQueue(system, StepAll(system, env, q, w, n, t))
  {
    hide Ids, HasNonFinite, Record, Deliveries, Period, KnownItems, Enqueue;
    if n == 0 {
    } else {
      StepAllKnown(system, env, q, w, n - 1, t);
      var before, c := StepAll(system, env, q, w, n - 1, t), system.components[n - 1];
      var result := env.steps(before.trace, c.id, t, Period(c, q));
      if result.Some? {
        DeliveriesKnown(system, c.id, result.value.outputs);
        EnqueueKnown(system, before.pending, t + Period(c, q), Deliveries(system.connections, c.id, result.value.outputs));
      }
    }
  }

  lemma EnqueueKnown(system: System, queue: DeliveryQueue, k: nat, items: seq<(PortRef, Value)>)
    requires (forall j <- queue :: KnownItems(system, queue[j])) && KnownItems(system, items)
    ensures forall j <- Enqueue(queue, k, items) :: KnownItems(system, Enqueue(queue, k, items)[j])
  {
    hide Ids;
  }

  lemma BeforeStepsQueue(system: System, e: Experiment, env: Env, w: World, t: nat)
    ensures BeforeSteps(system, e, env, w, t).pending == w.pending - {t}
  {
    var w0 := w.(pending := w.pending - {t});
    var w1 := InjectAll(system, env, w0, Delivered, QueuedAt(w.pending, t), t);
    var w2 := InjectAll(system, env, w1, Stimulated, TimelineAt(e.stimuli, t), t);
    InjectAllPending(system, env, w0, Delivered, QueuedAt(w.pending, t), t);
    InjectAllPending(system, env, w1, Stimulated, TimelineAt(e.stimuli, t), t);
    InjectAllPending(system, env, w2, Faulted, TimelineAt(FaultTimeline(e.faults), t), t);
  }

  ghost predicate AllKnown(system: System, e: Experiment)
  {
    KnownConnections(system) && KnownTargets(system, e.stimuli) && KnownTargets(system, FaultTimeline(e.faults))
  }

  /** The part of a tick that is not interrupted. */
  lemma BodyOnItsWay(system: System, e: Experiment, env: Env, q: nat, w: World, t: nat)
    requires q > 0 && AllKnown(system, e) && KnownQueue(system, w) && OnItsWay(env, w)
    requires w.halt == Going && env.interrupt(t) == NoInterrupt
    ensures OnItsWay(env, Tick(system, e, env, q, w, t)) && KnownQueue(system, Tick(system, e, env, q, w, t))
  {
    var w0 := w.(pending := w.pending - {t});
    hide InjectAll, StepAll, SnapshotAll, OnItsWay, Ids, TimelineAt, FaultTimeline;
    WayOfTrace(env, w, w0);
    var w1 := InjectAll(system, env, w0, Delivered, QueuedAt(w.pending, t), t);
    var w2 := InjectAll(system, env, w1, Stimulated, TimelineAt(e.stimuli, t), t);
    var w3 := BeforeSteps(system, e, env, w, t);
    InjectAllOnItsWay(system, env, w0, Delivered, QueuedAt(w.pending, t), t);
    KnownAt(system, e.stimuli, t);
    InjectAllOnItsWay(system, env, w1, Stimulated, TimelineAt(e.stimuli, t), t);
    KnownAt(system, FaultTimeline(e.faults), t);
    InjectAllOnItsWay(system, env, w2, Faulted, TimelineAt(FaultTimeline(e.faults), t), t);
    BeforeStepsQueue(system, e, env, w, t);
    StepAllOnItsWay(system, env, q, w3, |system.components|, t);
    StepAllKnown(system, env, q, w3, |system.components|, t);
    SnapshotAllOnItsWay(system, env, TickBody(system, e, env, q, w, t), |system.components|, t + q);
    SnapshotAllPending(system, env, TickBody(system, e, env, q, w, t), |system.components|, t + q);
  }

  lemma WayOfTrace(env: Env, w: World, w': World)
    requires OnItsWay(env, w) && w.trace == w'.trace && w.halt == w'.halt
    ensures OnItsWay(env, w')
  {
  }

  // ---- Why a loop stops --------------------------------------------------------------------------------------------

  /** The loop was going when it asked at instant n * q, and the answer was this interruption. */
  ghost predicate Interrupted(system: System, e: Experiment, env: Env, q: nat, trace: seq<Action>, n: nat, cause: Interrupt)
    requires q > 0
  {
    Loop(system, e, env, q, StartWorld(trace), n).halt == Going && env.interrupt(n * q) == cause
  }

  ghost predicate InterruptedBefore(system: System, e: Experiment, env: Env, q: nat, trace: seq<Action>, n: nat, cause: Interrupt)
    requires q > 0
  {
    exists m: nat :: m < n && Interrupted(system, e, env, q, trace, m, cause)
  }

  lemma InterruptedTick(system: System, e: Experiment, env: Env, q: nat, w: World, t: nat)
    requires q > 0 && w.halt == Going && env.interrupt(t) != NoInterrupt
    ensures Tick(system, e, env, q, w, t) == w.(halt := if env.interrupt(t) == CancelRequested then Cancelled else Raised)
  {
    SnapshotsStopped(system, env, TickBody(system, e, env, q, w, t), |system.components|, t + q);
  }

  /** What holds of a loop after n ticks: an honest log, and exactly one reason for having stopped. */
  ghost predicate Explained(system: System, e: Experiment, env: Env, q: nat, trace: seq<Action>, n: nat)
    requires q > 0
  {
    var w := Loop(system, e, env, q, StartWorld(trace), n);
    var cancelled := InterruptedBefore(system, e, env, q, trace, n, CancelRequested);
    var timedOut := InterruptedBefore(system, e, env, q, trace, n, WallTimeout);
    && Honest(env, w.trace)
    && (w.halt == Cancelled <==> cancelled)
    && (w.halt == Raised <==> timedOut || FailedLast(env, w.trace))
    && (FailedLast(env, w.trace) ==> !timedOut && !cancelled)
  }

  lemma InterruptedLater(system: System, e: Experiment, env: Env, q: nat, trace: seq<Action>, n: nat, cause: Interrupt)
    requires q > 0
    ensures InterruptedBefore(system, e, env, q, trace, n + 1, cause) <==>
      InterruptedBefore(system, e, env, q, trace, n, cause) || Interrupted(system, e, env, q, trace, n, cause)
  {
    hide Interrupted;
  }

  lemma {:induction false} StopExplained(system: System, e: Experiment, env: Env, q: nat, trace: seq<Action>, n: nat)
    requires q > 0 && AllKnown(system, e) && Honest(env, trace) && !FailedLast(env, trace)
    ensures Explained(system, e, env, q, trace, n)
    ensures KnownQueue(system, Loop(system, e, env, q, StartWorld(trace), n))
  {
    hide Tick, Honest, FailedLast, AllKnown;
    if n == 0 {
    } else {
      StopExplained(system, e, env, q, trace, n - 1);
      InterruptedLater(system, e, env, q, trace, n - 1, CancelRequested);
      InterruptedLater(system, e, env, q, trace, n - 1, WallTimeout);
      var w := Loop(system, e, env, q, StartWorld(trace), n - 1);
      if w.halt != Going {
        StoppedTick(system, e, env, q, w, (n - 1) * q);
      } else if env.interrupt((n - 1) * q) == NoInterrupt {
        BodyOnItsWay(system, e, env, q, w, (n - 1) * q);
      } else {
        InterruptedTick(system, e, env, q, w, (n - 1) * q);
      }
    }
  }

  lemma {:induction false} PreparationHonest(system: System, env: Env, n: nat)
    requires n <= |system.components|
    ensures var p := PrepareUpTo(system, env, n);
            Honest(env, p.trace) && (p.readiness == PrepareFailed <==> FailedLast(env, p.trace))
  {
    hide Honest, FailedLast;
    if n == 0 {
      NothingHonest(env);
    } else {
      PreparationHonest(system, env, n - 1);
      var before := PrepareUpTo(system, env, n - 1);
      if before.readiness == Ready && env.available(system.components[n - 1].backend) {
        var id := system.components[n - 1].id;
        OneMoreCall(env, before.trace, Prepare(id, env.prepares(before.trace, id)));
      }
    }
  }

  lemma NothingHonest(env: Env)
    ensures Honest(env, []) && !FailedLast(env, [])
  {
  }

  // ---- Metrics -------------------------------------------------------------------------------------------------------

  /** What a call reports under a name: the metrics and then the outputs of a good step of its component. */
  function Reports(name: PortRef): Action -> seq<Value>
  {
    (a: Action) => if a.Step? && a.id == name.component && GoodStep(a.result)
                   then Project(Named(name.port), a.result.value.metrics) + Project(Named(name.port), a.result.value.outputs) else []
  }

  /** All that a log reports under a name, in order. */
  function Reported(log: seq<Action>, name: PortRef): seq<Value>
  {
    Project(Reports(name), log)
  }

  /** The metric is the last value reported under the name, and is there when one was reported. */
  predicate LastUnder(metrics: map<PortRef, Value>, reported: seq<Value>, name: PortRef)
  {
    (name in metrics <==> reported != []) && (name in metrics ==> metrics[name] == reported[|reported| - 1])
  }

  /** The metrics are the last reports of the log, and nothing else. */
  ghost predicate LastReports(metrics: map<PortRef, Value>, log: seq<Action>)
  {
    forall name :: LastUnder(metrics, Reported(log, name), name)
  }

  lemma {:induction false} RecordKeepsLast(metrics: map<PortRef, Value>, id: string, values: seq<(string, Value)>, name: PortRef)
    ensures var r := Record(metrics, id, values);
            var named := if name.component == id then Project(Named(name.port), values) else [];
            && (name in r <==> name in metrics || named != [])
            && (name in r ==> r[name] == if named != [] then named[|named| - 1] else metrics[name])
  {
    if values == [] {
    } else {
      RecordKeepsLast(metrics, id, values[..|values| - 1], name);
    }
  }

  lemma StepReports(metrics: map<PortRef, Value>, log: seq<Action>, a: Action)
    requires LastReports(metrics, log) && a.Step? && GoodStep(a.result)
    ensures LastReports(Record(Record(metrics, a.id, a.result.value.metrics), a.id, a.result.value.outputs), log + [a])
  {
    forall name
      ensures LastUnder(Record(Record(metrics, a.id, a.result.value.metrics), a.id, a.result.value.outputs), Reported(log + [a], name), name)
    {
      assert LastUnder(metrics, Reported(log, name), name);
      StepReportsUnder(metrics, log, a, name);
    }
  }

  lemma StepReportsUnder(metrics: map<PortRef, Value>, log: seq<Action>, a: Action, name: PortRef)
    requires LastUnder(metrics, Reported(log, name), name) && a.Step? && GoodStep(a.result)
    ensures LastUnder(Record(Record(metrics, a.id, a.result.value.metrics), a.id, a.result.value.outputs), Reported(log + [a], name), name)
  {
    StepReport(a, name);
    hide *;
    ReportsGrow(log, a, name);
    BothRecorded(metrics, Reported(log, name), a.id, a.result.value.metrics, a.result.value.outputs, name);
  }

  lemma BothRecorded(metrics: map<PortRef, Value>, reported: seq<Value>, id: string, first: seq<(string, Value)>, second: seq<(string, Value)>, name: PortRef)
    requires LastUnder(metrics, reported, name)
    ensures LastUnder(Record(Record(metrics, id, first), id, second),
                      reported + (if id == name.component then Project(Named(name.port), first) + Project(Named(name.port), second) else []), name)
  {
    hide *;
    RecordIsLast(metrics, reported, id, first, name);
    var a := if id == name.component then Project(Named(name.port), first) else [];
    var b := if id == name.component then Project(Named(name.port), second) else [];
    RecordIsLast(Record(metrics, id, first), reported + a, id, second, name);
    assert reported + a + b == reported + (a + b);
  }

  lemma StepReport(a: Action, name: PortRef)
    requires a.Step? && GoodStep(a.result)
    ensures Reports(name)(a) == if a.id == name.component
                                then Project(Named(name.port), a.result.value.metrics) + Project(Named(name.port), a.result.value.outputs) else []
  {
    hide Project, Named;
  }

  lemma RecordIsLast(metrics: map<PortRef, Value>, reported: seq<Value>, id: string, values: seq<(string, Value)>, name: PortRef)
    requires LastUnder(metrics, reported, name)
    ensures LastUnder(Record(metrics, id, values), reported + (if id == name.component then Project(Named(name.port), values) else []), name)
  {
    hide Record, Named, Project;
    RecordKeepsLast(metrics, id, values, name);
  }

  lemma ReportsGrow(log: seq<Action>, a: Action, name: PortRef)
    ensures Reported(log + [a], name) == Reported(log, name) + Reports(name)(a)
  {
    hide Reports;
    ProjectConcat(Reports(name), log, [a]);
    ProjectOne(Reports(name), a);
  }

  lemma NoReport(metrics: map<PortRef, Value>, log: seq<Action>, a: Action)
    requires LastReports(metrics, log) && !(a.Step? && GoodStep(a.result))
    ensures LastReports(metrics, log + [a])
  {
    hide GoodStep, Project;
    forall name
      ensures LastUnder(metrics, Reported(log + [a], name), name)
    {
      assert LastUnder(metrics, Reported(log, name), name);
      ReportsGrow(log, a, name);
    }
  }

  lemma {:induction false} InjectAllReports(system: System, env: Env, w: World, origin: Origin, items: seq<(PortRef, Value)>, t: nat)
    requires LastReports(w.metrics, w.trace)
    ensures var w' := InjectAll(system, env, w, origin, items, t); LastReports(w'.metrics, w'.trace)
  {
    hide LastReports;
    if items == [] {
    } else {
      var front, last := items[..|items| - 1], items[|items| - 1];
      InjectAllReports(system, env, w, origin, front, t);
      var before := InjectAll(system, env, w, origin, front, t);
      NoReport(before.metrics, before.trace, Inject(origin, last.0, last.1, t));
    }
  }

  lemma {:induction false} StepAllReports(system: System, env: Env, q: nat, w: World, n: nat, t: nat)
    requires q > 0 && n <= |system.components| && LastReports(w.metrics, w.trace)
    ensures var w' := StepAll(system, env, q, w, n, t); LastReports(w'.metrics, w'.trace)
  {
    hide LastReports, GoodStep, Acceptable, Record, Enqueue, Deliveries;
    if n == 0 {
    } else {
      StepAllReports(system, env, q, w, n - 1, t);
      var before, c := StepAll(system, env, q, w, n - 1, t), system.components[n - 1];
      var result := env.steps(before.trace, c.id, t, Period(c, q));
      var a := Step(c.id, t, Period(c, q), result);
      GoodIsAcceptable(result);
      if GoodStep(result) {
        StepReports(before.metrics, before.trace, a);
      } else {
        NoReport(before.metrics, before.trace, a);
      }
    }
  }

  lemma {:induction false} SnapshotAllReports(system: System, env: Env, w: World, n: nat, mark: nat)
    requires n <= |system.components| && LastReports(w.metrics, w.trace)
    ensures var w' := SnapshotAll(system, env, w, n, mark); LastReports(w'.metrics, w'.trace)
  {
    hide LastReports;
    if n == 0 {
    } else {
      SnapshotAllReports(system, env, w, n - 1, mark);
      var before := SnapshotAll(system, env, w, n - 1, mark);
      NoReport(before.metrics, before.trace, Snapshot(system.components[n - 1].id, Some(mark)));
    }
  }

  lemma TickReports(system: System, e: Experiment, env: Env, q: nat, w: World, t: nat)
    requires q > 0 && LastReports(w.metrics, w.trace)
    ensures var w' := Tick(system, e, env, q, w, t); LastReports(w'.metrics, w'.trace)
  {
    hide InjectAll, StepAll, SnapshotAll, LastReports, TimelineAt, FaultTimeline;
    if w.halt == Going && env.interrupt(t) == NoInterrupt {
      var w0 := w.(pending := w.pending - {t});
      var w1 := InjectAll(system, env, w0, Delivered, QueuedAt(w.pending, t), t);
      var w2 := InjectAll(system, env, w1, Stimulated, TimelineAt(e.stimuli, t), t);
      InjectAllReports(system, env, w0, Delivered, QueuedAt(w.pending, t), t);
      InjectAllReports(system, env, w1, Stimulated, TimelineAt(e.stimuli, t), t);
      InjectAllReports(system, env, w2, Faulted, TimelineAt(FaultTimeline(e.faults), t), t);
      StepAllReports(system, env, q, BeforeSteps(system, e, env, w, t), |system.components|, t);
    }
    SnapshotAllReports(system, env, TickBody(system, e, env, q, w, t), |system.components|, t + q);
  }

  /** However far a loop got, the metrics it holds are exactly the last values that its good steps reported. */
  lemma {:induction false} MetricsAreLastReports(system: System, e: Experiment, env: Env, q: nat, trace: seq<Action>, n: nat)
    requires q > 0 && forall i :: 0 <= i < |trace| ==> trace[i].Prepare?
    ensures var w := Loop(system, e, env, q, StartWorld(trace), n); LastReports(w.metrics, w.trace)
  {
    hide Tick, LastReports;
    if n == 0 {
      NothingReported(trace);
    } else {
      MetricsAreLastReports(system, e, env, q, trace, n - 1);
      TickReports(system, e, env, q, Loop(system, e, env, q, StartWorld(trace), n - 1), (n - 1) * q);
    }
  }

  lemma NothingReported(trace: seq<Action>)
    requires forall i :: 0 <= i < |trace| ==> trace[i].Prepare?
    ensures LastReports(map[], trace)
  {
    hide GoodStep;
    forall name
      ensures Reported(trace, name) == []
    {
      ProjectNothing(Reports(name), trace);
    }
  }

  // ---- Verdict ---------------------------------------------------------------------------------------------------------

  /** The value an assertion sees: the last one reported under its metric, or none. */
  function LastValue(log: seq<Action>, name: PortRef): Value
  {
    var reported := Reported(log, name);
    if reported == [] then Null else reported[|reported| - 1]
  }

  /**
    An assertion does not fail the run: the comparison of the logged value, on the left, with the expected
    one could be made, and holds if the assertion is critical. Only equality is asked of a missing value;
    every other comparison with one does not hold.
   */
  predicate Stands(env: Env, log: seq<Action>, a: Assertion)
  {
    var actual := LastValue(log, a.metric);
    if actual == Null && a.operator != Eq && a.operator != Ne then !a.critical
    else
      var verdict := env.compare(a.operator, actual, a.expected);
      verdict.Some? && (a.critical ==> verdict.value)
  }

  lemma EvaluationStands(env: Env, log: seq<Action>, metrics: map<PortRef, Value>, a: Assertion)
    requires LastReports(metrics, log)
    ensures var verdict := Evaluate(env, Actual(metrics, a.metric), a.operator, a.expected);
            Stands(env, log, a) <==> verdict.Some? && (a.critical ==> verdict.value)
  {
    hide Reported;
    assert Actual(metrics, a.metric) == LastValue(log, a.metric);
  }

  lemma VerdictStands(env: Env, log: seq<Action>, metrics: map<PortRef, Value>, assertions: seq<Assertion>)
    requires LastReports(metrics, log)
    ensures Judge(env, metrics, assertions) == Some(true) <==> forall i :: 0 <= i < |assertions| ==> Stands(env, log, assertions[i])
  {
    hide Judge, LastReports, Stands, Evaluate;
    JudgeMeans(env, metrics, assertions);
    forall i | 0 <= i < |assertions|
      ensures var a := assertions[i];
              var verdict := Evaluate(env, Actual(metrics, a.metric), a.operator, a.expected);
              Stands(env, log, a) <==> verdict.Some? && (a.critical ==> verdict.value)
    {
      EvaluationStands(env, log, metrics, assertions[i]);
    }
  }

  // ---- The status of a run -------------------------------------------------------------------------------------------------

  /** The log of a prepared run when its loop ends. */
  function LoopLog(system: System, e: Experiment, env: Env): seq<Action>
    requires e.macroStepUs > 0
  {
    var q := Quantum(system, e);
    Loop(system, e, env, q, StartWorld(PrepareUpTo(system, env, |system.components|).trace), TickCount(e.durationUs, q)).trace
  }

  /** A prepared loop met the interruption. */
  ghost predicate Met(system: System, e: Experiment, env: Env, cause: Interrupt)
    requires e.macroStepUs > 0
  {
    var q := Quantum(system, e);
    InterruptedBefore(system, e, env, q, PrepareUpTo(system, env, |system.components|).trace, TickCount(e.durationUs, q), cause)
  }

  /** Whatever a run names, known or not: it passed exactly when its loop completed and every assertion stands on the values logged. */
  lemma PassedExactly(system: System, e: Experiment, env: Env)
    requires ValidSystem(system) && e.macroStepUs > 0
    ensures var prepared := PrepareUpTo(system, env, |system.components|);
            var q := Quantum(system, e);
            var w := Loop(system, e, env, q, StartWorld(prepared.trace), TickCount(e.durationUs, q));
            RunSpec(system, e, env).status == PASSED <==>
              prepared.readiness == Ready && w.halt == Going && forall i :: 0 <= i < |e.assertions| ==> Stands(env, w.trace, e.assertions[i])
  {
    hide Loop, PrepareUpTo, Close, Judge, Stands, Quantum;
    var q := Quantum(system, e);
    var prepared := PrepareUpTo(system, env, |system.components|);
    PrepareShape(system, env, |system.components|);
    NothingReported(prepared.trace);
    var n := TickCount(e.durationUs, q);
    MetricsAreLastReports(system, e, env, q, prepared.trace, n);
    var w := Loop(system, e, env, q, StartWorld(prepared.trace), n);
    VerdictStands(env, w.trace, w.metrics, e.assertions);
  }

  /**
    The status of every run. Blocked and preparation apart, it is cancelled exactly when the loop met a
    cancellation, and it passed exactly when the loop met no interruption, no call raised, and every
    assertion stands on the logged values; otherwise it failed.
   */
  lemma StatusExactly(system: System, e: Experiment, env: Env)
    requires ValidSystem(system) && e.macroStepUs > 0 && AllKnown(system, e)
    ensures var status := RunSpec(system, e, env).status;
            match PrepareUpTo(system, env, |system.components|).readiness
            case Unavailable => status == BLOCKED
            case PrepareFailed => status == FAILED
            case Ready =>
              var log := LoopLog(system, e, env);
              && Honest(env, log)
              && (status == CANCELLED <==> Met(system, e, env, CancelRequested))
              && (status == PASSED <==>
                    && !Met(system, e, env, CancelRequested) && !Met(system, e, env, WallTimeout) && !FailedLast(env, log)
                    && forall i :: 0 <= i < |e.assertions| ==> Stands(env, log, e.assertions[i]))
              && status in {CANCELLED, PASSED, FAILED}
  {
    hide Loop, PrepareUpTo, Close, Judge, Honest, FailedLast, Stands, AllKnown, InterruptedBefore, Quantum;
    var q := Quantum(system, e);
    var prepared := PrepareUpTo(system, env, |system.components|);
    PrepareShape(system, env, |system.components|);
    PreparationHonest(system, env, |system.components|);
    if prepared.readiness == Ready {
      var n := TickCount(e.durationUs, q);
      var w := Loop(system, e, env, q, StartWorld(prepared.trace), n);
      StopExplained(system, e, env, q, prepared.trace, n);
      MetricsAreLastReports(system, e, env, q, prepared.trace, n);
      VerdictStands(env, w.trace, w.metrics, e.assertions);
    }
  }

  /** The metrics of a run are the last values that its good steps reported, whatever way it ends. */
  lemma RunMetrics(system: System, e: Experiment, env: Env)
    requires ValidSystem(system) && e.macroStepUs > 0
    ensures LastReports(RunSpec(system, e, env).metrics, RunSpec(system, e, env).trace)
  {
    hide Loop, PrepareUpTo, Close, Judge, LastReports, Quantum;
    var q := Quantum(system, e);
    var prepared := PrepareUpTo(system, env, |system.components|);
    PrepareShape(system, env, |system.components|);
    NothingReported(prepared.trace);
    var n := TickCount(e.durationUs, q);
    var w := Loop(system, e, env, q, StartWorld(prepared.trace), n);
    MetricsAreLastReports(system, e, env, q, prepared.trace, n);
    CloseReports(prepared.trace, map[], BLOCKED, false);
    CloseReports(prepared.trace, map[], FAILED, true);
    CloseReports(w.trace, w.metrics, CANCELLED, false);
    CloseReports(w.trace, w.metrics, FAILED, true);
    CloseReports(w.trace, w.metrics, FAILED, false);
    CloseReports(w.trace, w.metrics, PASSED, false);
  }

  lemma CloseReports(log: seq<Action>, metrics: map<PortRef, Value>, status: RunStatus, salvage: bool)
    ensures LastReports(metrics, Close(log, metrics, status, salvage).trace) <==> LastReports(metrics, log)
  {
    hide LastReports, Close;
    forall name
      ensures Reported(Close(log, metrics, status, salvage).trace, name) == Reported(log, name)
    {
      CloseReportsNothing(log, metrics, status, salvage, name);
    }
    SameReports(metrics, log, Close(log, metrics, status, salvage).trace);
  }

  lemma CloseReportsNothing(log: seq<Action>, metrics: map<PortRef, Value>, status: RunStatus, salvage: bool, name: PortRef)
    ensures Reported(Close(log, metrics, status, salvage).trace, name) == Reported(log, name)
  {
    hide Close, Project, Reported;
    var all := Close(log, metrics, status, salvage).trace;
    var tail := ClosedTail(log, metrics, status, salvage);
    StepFree(tail, name);
    ReportedConcat(log, tail, name);
  }

  lemma ClosedTail(log: seq<Action>, metrics: map<PortRef, Value>, status: RunStatus, salvage: bool) returns (tail: seq<Action>)
    ensures Close(log, metrics, status, salvage).trace == log + tail
    ensures forall i :: 0 <= i < |tail| ==> !tail[i].Step?
  {
    hide Held;
    var ids := Held(log);
    tail := (if salvage then LastSnapshots(ids) else []) + Shutdowns(ids) + [Finalize(status)];
    assert Close(log, metrics, status, salvage).trace == log + tail;
  }

  lemma StepFree(tail: seq<Action>, name: PortRef)
    requires forall i :: 0 <= i < |tail| ==> !tail[i].Step?
    ensures Reported(tail, name) == []
  {
    hide GoodStep, Named;
    ProjectNothing(Reports(name), tail);
  }

  lemma ReportedConcat(a: seq<Action>, b: seq<Action>, name: PortRef)
    ensures Reported(a + b, name) == Reported(a, name) + Reported(b, name)
  {
    hide Reports;
    ProjectConcat(Reports(name), a, b);
  }

  lemma SameReports(metrics: map<PortRef, Value>, a: seq<Action>, b: seq<Action>)
    requires forall name :: Reported(a, name) == Reported(b, name)
    ensures LastReports(metrics, a) <==> LastReports(metrics, b)
  {
    hide Reported;
  }

  // ---- Last snapshots -----------------------------------------------------------------------------------------------------

  function Salvaged(): Action -> seq<string>
  {
    (a: Action) => if a.Snapshot? && a.mark == None then [a.id] else []
  }

  lemma {:induction false} SnapshotIds(ids: seq<string>)
    ensures Project(Salvaged(), LastSnapshots(ids)) == ids
  {
    if ids == [] {
    } else {
      assert LastSnapshots(ids)[..|ids| - 1] == LastSnapshots(ids[..|ids| - 1]);
      SnapshotIds(ids[..|ids| - 1]);
    }
  }

  lemma CloseSalvages(log: seq<Action>, metrics: map<PortRef, Value>, status: RunStatus, salvage: bool)
    requires forall i :: 0 <= i < |log| ==> Salvaged()(log[i]) == []
    ensures Project(Salvaged(), Close(log, metrics, status, salvage).trace) == if salvage then Held(log) else []
  {
    hide Held;
    var f, ids := Salvaged(), Held(log);
    var last := if salvage then LastSnapshots(ids) else [];
    ProjectNothing(f, log);
    SnapshotIds(ids);
    ProjectNothing(f, Shutdowns(ids));
    ProjectConcat(f, log + last + Shutdowns(ids), [Finalize(status)]);
    ProjectOne(f, Finalize(status));
    ProjectConcat(f, log + last, Shutdowns(ids));
    ProjectConcat(f, log, last);
  }

  /** An exception ended the run: preparing failed, the loop raised, or a comparison could not be made. */
  ghost predicate EndedByException(system: System, e: Experiment, env: Env)
    requires e.macroStepUs > 0
  {
    match PrepareUpTo(system, env, |system.components|).readiness
    case Unavailable => false
    case PrepareFailed => true
    case Ready =>
      var log := LoopLog(system, e, env);
      || Met(system, e, env, WallTimeout) || FailedLast(env, log)
      || (!Met(system, e, env, CancelRequested)
          && exists i :: 0 <= i < |e.assertions| && NotComparable(env, log, e.assertions[i]))
  }

  predicate NotComparable(env: Env, log: seq<Action>, a: Assertion)
  {
    var actual := LastValue(log, a.metric);
    (actual != Null || a.operator == Eq || a.operator == Ne) && env.compare(a.operator, actual, a.expected) == None
  }

  lemma {:induction false} JudgeRaises(env: Env, log: seq<Action>, metrics: map<PortRef, Value>, assertions: seq<Assertion>)
    requires LastReports(metrics, log)
    ensures Judge(env, metrics, assertions) == None <==> exists i :: 0 <= i < |assertions| && NotComparable(env, log, assertions[i])
  {
    hide LastReports, LastValue;
    if assertions == [] {
    } else {
      var front, a := assertions[..|assertions| - 1], assertions[|assertions| - 1];
      JudgeRaises(env, log, metrics, front);
      assert forall i :: 0 <= i < |front| ==> front[i] == assertions[i];
      ActualIsLast(log, metrics, a.metric);
    }
  }

  lemma ActualIsLast(log: seq<Action>, metrics: map<PortRef, Value>, name: PortRef)
    requires LastReports(metrics, log)
    ensures Actual(metrics, name) == LastValue(log, name)
  {
  }

  lemma LoopNeverSalvages(system: System, e: Experiment, env: Env, q: nat, trace: seq<Action>, n: nat)
    requires q > 0 && forall i :: 0 <= i < |trace| ==> trace[i].Prepare?
    ensures var log := Loop(system, e, env, q, StartWorld(trace), n).trace; forall i :: 0 <= i < |log| ==> Salvaged()(log[i]) == []
  {
    hide Loop;
    var log := Loop(system, e, env, q, StartWorld(trace), n).trace;
    LoopExtends(system, e, env, q, StartWorld(trace), n);
    forall i | 0 <= i < |log|
      ensures Salvaged()(log[i]) == []
    {
      if i < |trace| {
        assert log[i] == log[..|trace|][i];
      }
    }
  }

  /** Each adapter that a run holds is snapshot once more, before the shutdowns, exactly when an exception ended the run. */
  lemma SalvageExactly(system: System, e: Experiment, env: Env)
    requires ValidSystem(system) && e.macroStepUs > 0 && AllKnown(system, e)
    ensures var log := RunSpec(system, e, env).trace;
            Project(Salvaged(), log) == if EndedByException(system, e, env) then Held(PrepareUpTo(system, env, |system.components|).trace) else []
  {
    hide Loop, PrepareUpTo, Close, Judge, Honest, FailedLast, AllKnown, InterruptedBefore, Quantum, NotComparable, LastReports, Held, Salvaged;
    var q := Quantum(system, e);
    var prepared := PrepareUpTo(system, env, |system.components|);
    PrepareShape(system, env, |system.components|);
    PreparationHonest(system, env, |system.components|);
    PreparesSalvageNothing(prepared.trace);
    if prepared.readiness == Ready {
      var n := TickCount(e.durationUs, q);
      var w := Loop(system, e, env, q, StartWorld(prepared.trace), n);
      StopExplained(system, e, env, q, prepared.trace, n);
      MetricsAreLastReports(system, e, env, q, prepared.trace, n);
      JudgeRaises(env, w.trace, w.metrics, e.assertions);
      LoopNeverSalvages(system, e, env, q, prepared.trace, n);
      LoopHolds(system, e, env, q, prepared.trace, n);
      CloseSalvages(w.trace, w.metrics, CANCELLED, false);
      CloseSalvages(w.trace, w.metrics, FAILED, true);
      CloseSalvages(w.trace, w.metrics, FAILED, false);
      CloseSalvages(w.trace, w.metrics, PASSED, false);
    } else {
      CloseSalvages(prepared.trace, map[], BLOCKED, false);
      CloseSalvages(prepared.trace, map[], FAILED, true);
    }
  }

  lemma PreparesSalvageNothing(trace: seq<Action>)
    requires forall i :: 0 <= i < |trace| ==> trace[i].Prepare?
    ensures forall i :: 0 <= i < |trace| ==> Salvaged()(trace[i]) == []
  {
  }

  lemma LoopHolds(system: System, e: Experiment, env: Env, q: nat, trace: seq<Action>, n: nat)
    requires q > 0
    ensures Held(Loop(system, e, env, q, StartWorld(trace), n).trace) == Held(trace)
  {
    hide Loop;
    LoopExtends(system, e, env, q, StartWorld(trace), n);
    HoldsSame(system, trace, Loop(system, e, env, q, StartWorld(trace), n).trace);
  }

  /** The loop neither gains nor loses adapters. */
  lemma HoldsSame(system: System, earlier: seq<Action>, later: seq<Action>)
    requires Extends(system, earlier, later)
    ensures Held(later) == Held(earlier)
  {
    var calls := later[|earlier|..];
    assert later == earlier + calls;
    ProjectConcat(HeldBy(), earlier, calls);
    ProjectNothing(HeldBy(), calls);
  }
}
