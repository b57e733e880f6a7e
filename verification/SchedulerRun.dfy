// The scheduler as the program runs it: nested loops over virtual time and components
// that update the adapters held, the delivery queue, the metrics and the status in place.
module SchedulerRun {
  import opened Common
  import opened SchedulerItems
  import opened SchedulerModel
  import opened SchedulerLogs
  import opened SchedulerProtocol

  lemma PrefixStep<T>(s: seq<T>, n: nat)
    requires n < |s|
    ensures s[..n + 1][..n] == s[..n] && s[..n + 1][n] == s[n] && |s[..n + 1]| == n + 1
  {
  }

  /** Groups a timeline by instant. */
  method Bucket(items: seq<Timed>) returns (buckets: map<nat, seq<(PortRef, Value)>>)
    ensures forall t :: QueuedAt(buckets, t) == TimelineAt(items, t)
    ensures forall t :: StimuliListed(items, t, QueuedAt(buckets, t))
  {
    buckets := map[];
    for i := 0 to |items|
      invariant forall t :: QueuedAt(buckets, t) == TimelineAt(items[..i], t)
    {
      PrefixStep(items, i);
      var item := items[i];
      buckets := buckets[item.atUs := QueuedAt(buckets, item.atUs) + [(item.target, item.value)]];
    }
    assert items[..|items|] == items;
    forall t: nat
      ensures StimuliListed(items, t, QueuedAt(buckets, t))
    {
      var _ := TimelineIs(items, t);
    }
  }

  /** Groups the connections by source port. */
  method ConnectionMap(connections: seq<Connection>) returns (targets: map<PortRef, seq<PortRef>>)
    ensures forall source :: QueuedAt(targets, source) == TargetsOf(connections, source)
  {
    targets := map[];
    for i := 0 to |connections|
      invariant forall source :: QueuedAt(targets, source) == TargetsOf(connections[..i], source)
    {
      PrefixStep(connections, i);
      var c := connections[i];
      targets := targets[c.source := QueuedAt(targets, c.source) + [c.target]];
    }
    assert connections[..|connections|] == connections;
  }

  class DeterministicScheduler {
    const system: System
    const experiment: Experiment
    const env: Env

    // The adapters held, the calls made so far, and the state of the loop.
    var adapters: seq<string>
    var trace: seq<Action>
    var pending: DeliveryQueue
    var metrics: map<PortRef, Value>
    var halt: Halt

    constructor (system: System, experiment: Experiment, env: Env)
      ensures this.system == system && this.experiment == experiment && this.env == env
      ensures adapters == [] && trace == [] && pending == map[] && metrics == map[] && halt == Going
    {
      this.system, this.experiment, this.env := system, experiment, env;
      adapters, trace, pending, metrics, halt := [], [], map[], map[], Going;
    }

    function Now(): World
      reads this
    {
      World(trace, pending, metrics, halt)
    }

    method PrepareAll() returns (readiness: Readiness)
      requires adapters == [] && trace == [] && pending == map[] && metrics == map[] && halt == Going
      modifies this`adapters, this`trace
      ensures PrepareUpTo(system, env, |system.components|) == Preparation(trace, readiness)
      ensures adapters == Held(trace)
    {
      readiness := Ready;
      var i := 0;
      while i < |system.components| && readiness == Ready
        invariant 0 <= i <= |system.components|
        invariant PrepareUpTo(system, env, i) == Preparation(trace, readiness)
        invariant adapters == Held(trace)
      {
        var component := system.components[i];
        if !env.available(component.backend) {
          readiness := Unavailable;
        } else {
          var ok := env.prepares(trace, component.id);
          trace := trace + [Prepare(component.id, ok)];
          if ok {
            adapters := adapters + [component.id];
          } else {
            readiness := PrepareFailed;
          }
        }
        i := i + 1;
      }
      StuckPreparation(system, env, i, |system.components|);
    }

    /** One batch of injections at one instant; a raised exception ends it. */
    method InjectBatch(origin: Origin, items: seq<(PortRef, Value)>, t: nat)
      modifies this`trace, this`halt
      ensures Now() == InjectAll(system, env, old(Now()), origin, items, t)
    {
      for i := 0 to |items|
        invariant Now() == InjectAll(system, env, old(Now()), origin, items[..i], t)
      {
        PrefixStep(items, i);
        var (target, value) := items[i];
        if halt == Going {
          if target.component !in Ids(system) {
            halt := Raised;
          } else {
            var accepted := env.injects(trace, target, value, t);
            trace := trace + [Inject(origin, target, value, t)];
            halt := if accepted then Going else Raised;
          }
        }
      }
      assert items[..|items|] == items;
    }

    /** Queues the outputs of a step for its end, output by output and target by target. */
    method QueueOutputs(connections: map<PortRef, seq<PortRef>>, id: string, outputs: seq<(string, Value)>, due: nat)
      requires forall source :: QueuedAt(connections, source) == TargetsOf(system.connections, source)
      modifies this`pending, this`metrics
      ensures pending == Enqueue(old(pending), due, Deliveries(system.connections, id, outputs))
      ensures metrics == Record(old(metrics), id, outputs)
    {
      for i := 0 to |outputs|
        invariant pending == Enqueue(old(pending), due, Deliveries(system.connections, id, outputs[..i]))
        invariant metrics == Record(old(metrics), id, outputs[..i])
      {
        PrefixStep(outputs, i);
        var (port, value) := outputs[i];
        var source := PortRef(id, port);
        metrics := metrics[source := value];
        var targets := QueuedAt(connections, source);
        ghost var before := Deliveries(system.connections, id, outputs[..i]);
        assert before + Fan(targets[..0], value) == before;
        for j := 0 to |targets|
          invariant metrics == Record(old(metrics), id, outputs[..i + 1])
          invariant pending == Enqueue(old(pending), due, before + Fan(targets[..j], value))
        {
          EnqueueMore(old(pending), due, before + Fan(targets[..j], value), (targets[j], value));
          FanMore(targets, j, value, before);
          pending := pending[due := QueuedAt(pending, due) + [(targets[j], value)]];
        }
        assert targets[..|targets|] == targets;
      }
      assert outputs[..|outputs|] == outputs;
    }

    method RecordMetrics(id: string, values: seq<(string, Value)>)
      modifies this`metrics
      ensures metrics == Record(old(metrics), id, values)
    {
      for i := 0 to |values|
        invariant metrics == Record(old(metrics), id, values[..i])
      {
        PrefixStep(values, i);
        metrics := metrics[PortRef(id, values[i].0) := values[i].1];
      }
      assert values[..|values|] == values;
    }

    method StepComponents(connections: map<PortRef, seq<PortRef>>, quantum: nat, t: nat)
      requires quantum > 0
      requires forall source :: QueuedAt(connections, source) == TargetsOf(system.connections, source)
      modifies this`trace, this`pending, this`metrics, this`halt
      ensures Now() == StepAll(system, env, quantum, old(Now()), |system.components|, t)
    {
      for i := 0 to |system.components|
        invariant Now() == StepAll(system, env, quantum, old(Now()), i, t)
      {
        var component := system.components[i];
        var period := Period(component, quantum);
        if halt == Going && t % period == 0 {
          var result := env.steps(trace, component.id, t, period);
          trace := trace + [Step(component.id, t, period, result)];
          if Acceptable(result) {
            RecordMetrics(component.id, result.value.metrics);
            QueueOutputs(connections, component.id, result.value.outputs, t + period);
          } else {
            halt := Raised;
          }
        }
      }
    }

    method TakeCheckpoint(mark: nat)
      modifies this`trace, this`halt
      ensures Now() == Checkpoint(system, experiment, env, old(Now()), mark)
    {
      if experiment.checkpointUs.Some? && experiment.checkpointUs.value > 0 && mark % experiment.checkpointUs.value == 0 {
        for i := 0 to |system.components|
          invariant Now() == SnapshotAll(system, env, old(Now()), i, mark)
        {
          var id := system.components[i].id;
          if halt == Going {
            var written := env.snapshots(trace, id, mark);
            trace := trace + [Snapshot(id, Some(mark))];
            halt := if written then Going else Raised;
          }
        }
      }
    }

    method RunTick(stimuli: map<nat, seq<(PortRef, Value)>>, faults: map<nat, seq<(PortRef, Value)>>,
                   connections: map<PortRef, seq<PortRef>>, quantum: nat, t: nat)
      requires quantum > 0
      requires forall k :: QueuedAt(stimuli, k) == TimelineAt(experiment.stimuli, k)
      requires forall k :: QueuedAt(faults, k) == TimelineAt(FaultTimeline(experiment.faults), k)
      requires forall source :: QueuedAt(connections, source) == TargetsOf(system.connections, source)
      modifies this`trace, this`pending, this`metrics, this`halt
      ensures Now() == Tick(system, experiment, env, quantum, old(Now()), t)
    {
      hide InjectAll, StepAll, Checkpoint, TimelineAt, FaultTimeline, TargetsOf, QueuedAt;
      if halt == Going {
        match env.interrupt(t)
        case CancelRequested => halt := Cancelled;
        case WallTimeout => halt := Raised;
        case NoInterrupt =>
          var deliveries := QueuedAt(pending, t);
          pending := pending - {t};
          InjectBatch(Delivered, deliveries, t);
          InjectBatch(Stimulated, QueuedAt(stimuli, t), t);
          InjectBatch(Faulted, QueuedAt(faults, t), t);
          StepComponents(connections, quantum, t);
      }
      TakeCheckpoint(t + quantum);
    }

    method JudgeAll() returns (verdict: Option<bool>)
      ensures verdict == Judge(env, metrics, experiment.assertions)
    {
      verdict := Some(true);
      for i := 0 to |experiment.assertions|
        invariant verdict == Judge(env, metrics, experiment.assertions[..i])
      {
        PrefixStep(experiment.assertions, i);
        var a := experiment.assertions[i];
        if verdict.Some? {
          match Evaluate(env, Actual(metrics, a.metric), a.operator, a.expected)
          case None => verdict := None;
          case Some(passed) => verdict := Some(verdict.value && (passed || !a.critical));
        }
      }
      assert experiment.assertions[..|experiment.assertions|] == experiment.assertions;
    }

    /** The last snapshots of a failed run, the shutdowns of every run, and the finalize call. */
    method CloseRun(status: RunStatus, salvage: bool)
      requires adapters == Held(trace)
      modifies this`trace
      ensures trace == Close(old(trace), metrics, status, salvage).trace
    {
      ghost var ids := adapters;
      if salvage {
        for i := 0 to |adapters|
          invariant trace == old(trace) + LastSnapshots(ids[..i])
        {
          trace := trace + [Snapshot(adapters[i], None)];
        }
        assert ids[..|ids|] == ids;
      }
      ghost var rescued := trace;
      for i := 0 to |adapters|
        invariant trace == rescued + Shutdowns(ids[..i])
      {
        trace := trace + [Shutdown(adapters[i])];
      }
      assert ids[..|ids|] == ids;
      trace := trace + [Finalize(status)];
    }

    /** One whole run; its status, its calls and its metrics are those of RunSpec. */
    method Run() returns (status: RunStatus)
      requires adapters == [] && trace == [] && pending == map[] && metrics == map[] && halt == Going
      requires experiment.macroStepUs > 0
      modifies this
      ensures Outcome(status, trace, metrics) == RunSpec(system, experiment, env)
    {
      var readiness := PrepareAll();
      if readiness == Unavailable {
        status := BLOCKED;
        CloseRun(status, false);
      } else if readiness == PrepareFailed {
        status := FAILED;
        CloseRun(status, true);
      } else {
        RunLoop();
        if halt == Cancelled {
          status := CANCELLED;
          CloseRun(status, false);
        } else if halt == Raised {
          status := FAILED;
          CloseRun(status, true);
        } else {
          var verdict := JudgeAll();
          if verdict.None? {
            status := FAILED;
            CloseRun(status, true);
          } else {
            status := if verdict.value then PASSED else FAILED;
            CloseRun(status, false);
          }
        }
      }
    }

    method RunLoop()
      requires adapters == Held(trace) && Now() == StartWorld(trace)
      requires experiment.macroStepUs > 0
      modifies this`trace, this`pending, this`metrics, this`halt
      ensures var quantum := Quantum(system, experiment);
              Now() == Loop(system, experiment, env, quantum, StartWorld(old(trace)), TickCount(experiment.durationUs, quantum))
      ensures adapters == Held(trace)
    {
      var quantum := Quantum(system, experiment);
      var stimuli := Bucket(experiment.stimuli);
      var faults := Bucket(FaultTimeline(experiment.faults));
      var connections := ConnectionMap(system.connections);
      var ticks := TickCount(experiment.durationUs, quantum);
      for n := 0 to ticks
        invariant Now() == Loop(system, experiment, env, quantum, StartWorld(old(trace)), n)
      {
        RunTick(stimuli, faults, connections, quantum, n * quantum);
      }
      LoopExtends(system, experiment, env, quantum, StartWorld(old(trace)), ticks);
      HoldsSame(system, old(trace), trace);
    }
  }

  lemma {:induction false} StuckPreparation(system: System, env: Env, i: nat, n: nat)
    requires i <= n <= |system.components|
    requires i < n ==> PrepareUpTo(system, env, i).readiness != Ready
    ensures PrepareUpTo(system, env, n) == PrepareUpTo(system, env, i)
  {
    if i == n {
    } else {
      StuckPreparation(system, env, i, n - 1);
    }
  }

  lemma EnqueueMore(queue: DeliveryQueue, k: nat, items: seq<(PortRef, Value)>, item: (PortRef, Value))
    ensures Enqueue(queue, k, items + [item])
         == Enqueue(queue, k, items)[k := QueuedAt(Enqueue(queue, k, items), k) + [item]]
  {
    assert QueuedAt(queue, k) + [] == QueuedAt(queue, k);
    assert QueuedAt(queue, k) + (items + [item]) == QueuedAt(queue, k) + items + [item];
  }

  lemma FanMore(targets: seq<PortRef>, j: nat, value: Value, before: seq<(PortRef, Value)>)
    requires j < |targets|
    ensures before + Fan(targets[..j + 1], value) == before + Fan(targets[..j], value) + [(targets[j], value)]
  {
  }
}
