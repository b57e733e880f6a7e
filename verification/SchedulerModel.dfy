// The deterministic multi-rate scheduler as a function on values: what one run
// of src/ael/scheduler.py does to its adapters, its delivery queue and its metrics.
module SchedulerModel {
  import opened Common

  // ---- Documents --------------------------------------------------------------

  /** A JSON value; NonFinite is a top-level float that is infinite or not a number. */
  datatype Value = Null | Json(text: string) | NonFinite(text: string)

  /** "component.port", already split at its first dot. */
  datatype PortRef = PortRef(component: string, port: string)

  datatype Component = Component(id: string, backend: string, stepUs: Option<nat>, eventDriven: bool)

  datatype Connection = Connection(source: PortRef, target: PortRef)

  datatype System = System(components: seq<Component>, connections: seq<Connection>)

  /** One entry of the timeline: a stimulus, or a fault already rendered as an injection. */
  datatype Timed = Timed(atUs: nat, target: PortRef, value: Value)

  datatype Fault = Fault(atUs: nat, target: PortRef, kind: string, parameters: Value)

  datatype Operator = Eq | Ne | Lt | Le | Gt | Ge | Contains

  datatype Assertion = Assertion(metric: PortRef, operator: Operator, expected: Value, critical: bool)

  datatype Experiment = Experiment(
    durationUs: nat,
    macroStepUs: nat,
    checkpointUs: Option<nat>,
    stimuli: seq<Timed>,
    faults: seq<Fault>,
    assertions: seq<Assertion>)

  datatype RunStatus = RUNNING | PASSED | FAILED | BLOCKED | CANCELLED

  // What SystemComponent and SystemManifest validation leaves to the scheduler.
  predicate ValidSystem(system: System)
  {
    && |system.components| > 0
    && (forall c <- system.components :: c.stepUs.Some? ==> c.stepUs.value > 0)
    && (forall c <- system.components :: !c.eventDriven ==> c.stepUs.Some?)
    && (forall i, j :: 0 <= i < j < |system.components| ==> system.components[i].id != system.components[j].id)
  }

  // What ExperimentSpec validation leaves to the scheduler.
  predicate ValidExperiment(e: Experiment)
  {
    && e.durationUs > 0 && e.macroStepUs > 0
    && e.durationUs % e.macroStepUs == 0
    && (e.checkpointUs.Some? ==> e.checkpointUs.value > 0 && e.checkpointUs.value % e.macroStepUs == 0)
    && (forall s <- e.stimuli :: s.atUs <= e.durationUs)
    && (forall f <- e.faults :: f.atUs <= e.durationUs)
  }

  // ---- Adapters and the outside world -------------------------------------------

  datatype StepResult = StepResult(
    outputs: seq<(string, Value)>,
    metrics: seq<(string, Value)>,
    artifactsOk: bool)

  datatype Origin = Delivered | Stimulated | Faulted

  /** One call the scheduler makes on an adapter or on the evidence recorder. */
  datatype Action =
    | Prepare(id: string, ok: bool)
    | Inject(origin: Origin, target: PortRef, value: Value, at: nat)
    | Step(id: string, at: nat, span: nat, result: Option<StepResult>)
    | Snapshot(id: string, mark: Option<nat>)
    | Shutdown(id: string)
    | Finalize(status: RunStatus)

  datatype Interrupt = NoInterrupt | CancelRequested | WallTimeout

  /**
    Everything the run does not decide. An adapter is deterministic, so its answer is a function
    of the calls made so far; false, and None from a step, stand for a raised exception.
   */
  datatype Env = Env(
    available: string -> bool,
    prepares: (seq<Action>, string) -> bool,
    injects: (seq<Action>, PortRef, Value, nat) -> bool,
    steps: (seq<Action>, string, nat, nat) -> Option<StepResult>,
    snapshots: (seq<Action>, string, nat) -> bool,
    interrupt: nat -> Interrupt,
    compare: (Operator, Value, Value) -> Option<bool>)

  // ---- Quantum --------------------------------------------------------------------

  function Gcd(a: nat, b: nat): (g: nat)
    ensures a > 0 || b > 0 ==> g > 0
    decreases b
  {
    if b == 0 then a else Gcd(b, a % b)
  }

  function QuantumUpTo(macroStepUs: nat, components: seq<Component>, n: nat): (q: nat)
    requires n <= |components| && macroStepUs > 0
    ensures q > 0
  {
    if n == 0 then macroStepUs
    else
      var q := QuantumUpTo(macroStepUs, components, n - 1);
      if components[n - 1].stepUs.Some? then Gcd(q, components[n - 1].stepUs.value) else q
  }

  function Quantum(system: System, e: Experiment): (q: nat)
    requires e.macroStepUs > 0
    ensures q > 0
  {
    QuantumUpTo(e.macroStepUs, system.components, |system.components|)
  }

  function Period(c: Component, quantum: nat): nat
  {
    if c.stepUs.Some? && c.stepUs.value > 0 then c.stepUs.value else quantum
  }

  // ---- Timeline and routing ---------------------------------------------------------

  /** The injections a timeline holds for instant t, in list order. */
  function TimelineAt(items: seq<Timed>, t: nat): seq<(PortRef, Value)>
  {
    if items == [] then []
    else
      var rest := TimelineAt(items[..|items| - 1], t);
      var item := items[|items| - 1];
      if item.atUs == t then rest + [(item.target, item.value)] else rest
  }

  function FaultInjection(f: Fault): Timed
  {
    Timed(f.atUs, PortRef(f.target.component, f.target.port + ".fault." + f.kind), f.parameters)
  }

  function FaultTimeline(faults: seq<Fault>): (r: seq<Timed>)
    ensures |r| == |faults|
    ensures forall i :: 0 <= i < |r| ==> r[i] == FaultInjection(faults[i])
  {
    seq(|faults|, i requires 0 <= i < |faults| => FaultInjection(faults[i]))
  }

  function TargetsOf(connections: seq<Connection>, source: PortRef): seq<PortRef>
  {
    if connections == [] then []
    else
      var rest := TargetsOf(connections[..|connections| - 1], source);
      var last := connections[|connections| - 1];
      if last.source == source then rest + [last.target] else rest
  }

  function Fan(targets: seq<PortRef>, value: Value): (r: seq<(PortRef, Value)>)
    ensures |r| == |targets|
    ensures forall i :: 0 <= i < |r| ==> r[i] == (targets[i], value)
  {
    seq(|targets|, i requires 0 <= i < |targets| => (targets[i], value))
  }

  /** The deliveries that the outputs of one step cause, in output order and then connection order. */
  function Deliveries(connections: seq<Connection>, id: string, outputs: seq<(string, Value)>): seq<(PortRef, Value)>
  {
    if outputs == [] then []
    else
      var last := outputs[|outputs| - 1];
      Deliveries(connections, id, outputs[..|outputs| - 1])
      + Fan(TargetsOf(connections, PortRef(id, last.0)), last.1)
  }

  type DeliveryQueue = map<nat, seq<(PortRef, Value)>>

  function QueuedAt<K, V>(queue: map<K, seq<V>>, k: K): seq<V>
  {
    if k in queue then queue[k] else []
  }

  function Enqueue(queue: DeliveryQueue, k: nat, items: seq<(PortRef, Value)>): DeliveryQueue
  {
    if items == [] then queue else queue[k := QueuedAt(queue, k) + items]
  }

  function Record(metrics: map<PortRef, Value>, id: string, values: seq<(string, Value)>): map<PortRef, Value>
  {
    if values == [] then metrics
    else
      var last := values[|values| - 1];
      Record(metrics, id, values[..|values| - 1])[PortRef(id, last.0) := last.1]
  }

  predicate HasNonFinite(values: seq<(string, Value)>)
  {
    exists i :: 0 <= i < |values| && values[i].1.NonFinite?
  }

  // ---- One tick ------------------------------------------------------------------------

  datatype Halt = Going | Cancelled | Raised

  datatype World = World(
    trace: seq<Action>,
    pending: DeliveryQueue,
    metrics: map<PortRef, Value>,
    halt: Halt)

  function Ids(system: System): set<string>
  {
    set c <- system.components :: c.id
  }

  function InjectOne(system: System, env: Env, w: World, origin: Origin, item: (PortRef, Value), t: nat): World
  {
    if w.halt != Going then w
    else if item.0.component !in Ids(system) then w.(halt := Raised)
    else w.(trace := w.trace + [Inject(origin, item.0, item.1, t)],
            halt := if env.injects(w.trace, item.0, item.1, t) then Going else Raised)
  }

  function InjectAll(system: System, env: Env, w: World, origin: Origin, items: seq<(PortRef, Value)>, t: nat): World
  {
    if items == [] then w
    else InjectOne(system, env, InjectAll(system, env, w, origin, items[..|items| - 1], t),
                   origin, items[|items| - 1], t)
  }

  predicate Acceptable(r: Option<StepResult>)
  {
    r.Some? && !HasNonFinite(r.value.outputs) && !HasNonFinite(r.value.metrics) && r.value.artifactsOk
  }

  function StepOne(system: System, env: Env, quantum: nat, w: World, c: Component, t: nat): World
    requires quantum > 0
  {
    var period := Period(c, quantum);
    if w.halt != Going || t % period != 0 then w
    else
      var result := env.steps(w.trace, c.id, t, period);
      var stepped := w.(trace := w.trace + [Step(c.id, t, period, result)]);
      if !Acceptable(result) then stepped.(halt := Raised)
      else
        stepped.(
          metrics := Record(Record(w.metrics, c.id, result.value.metrics), c.id, result.value.outputs),
          pending := Enqueue(w.pending, t + period, Deliveries(system.connections, c.id, result.value.outputs)))
  }

  function StepAll(system: System, env: Env, quantum: nat, w: World, n: nat, t: nat): World
    requires quantum > 0 && n <= |system.components|
  {
    if n == 0 then w
    else StepOne(system, env, quantum, StepAll(system, env, quantum, w, n - 1, t), system.components[n - 1], t)
  }

  function SnapshotAll(system: System, env: Env, w: World, n: nat, mark: nat): World
    requires n <= |system.components|
  {
    if n == 0 then w
    else
      var before := SnapshotAll(system, env, w, n - 1, mark);
      var id := system.components[n - 1].id;
      if before.halt != Going then before
      else before.(trace := before.trace + [Snapshot(id, Some(mark))],
                   halt := if env.snapshots(before.trace, id, mark) then Going else Raised)
  }

  function Checkpoint(system: System, e: Experiment, env: Env, w: World, mark: nat): World
  {
    if e.checkpointUs.Some? && e.checkpointUs.value > 0 && mark % e.checkpointUs.value == 0
    then SnapshotAll(system, env, w, |system.components|, mark)
    else w
  }

  /** The world in which the components of a tick start to step: after the deliveries, the stimuli and the faults. */
  function BeforeSteps(system: System, e: Experiment, env: Env, w: World, t: nat): World
  {
    var w1 := InjectAll(system, env, w.(pending := w.pending - {t}), Delivered, QueuedAt(w.pending, t), t);
    var w2 := InjectAll(system, env, w1, Stimulated, TimelineAt(e.stimuli, t), t);
    InjectAll(system, env, w2, Faulted, TimelineAt(FaultTimeline(e.faults), t), t)
  }

  /** All injections of an instant, and then the due components. */
  function TickBody(system: System, e: Experiment, env: Env, quantum: nat, w: World, t: nat): World
    requires quantum > 0
  {
    if w.halt != Going then w
    else
      match env.interrupt(t)
      case CancelRequested => w.(halt := Cancelled)
      case WallTimeout => w.(halt := Raised)
      case NoInterrupt =>
        StepAll(system, env, quantum, BeforeSteps(system, e, env, w, t), |system.components|, t)
  }

  function Tick(system: System, e: Experiment, env: Env, quantum: nat, w: World, t: nat): World
    requires quantum > 0
  {
    Checkpoint(system, e, env, TickBody(system, e, env, quantum, w, t), t + quantum)
  }

  /** The world after the first n ticks of a loop that ticks every quantum microseconds. */
  function Loop(system: System, e: Experiment, env: Env, quantum: nat, w: World, n: nat): World
    requires quantum > 0
  {
    if n == 0 then w
    else Tick(system, e, env, quantum, Loop(system, e, env, quantum, w, n - 1), (n - 1) * quantum)
  }

  // ---- A whole run ------------------------------------------------------------------------

  datatype Readiness = Ready | Unavailable | PrepareFailed

  datatype Preparation = Preparation(trace: seq<Action>, readiness: Readiness)

  function PrepareUpTo(system: System, env: Env, n: nat): Preparation
    requires n <= |system.components|
  {
    if n == 0 then Preparation([], Ready)
    else
      var before := PrepareUpTo(system, env, n - 1);
      var c := system.components[n - 1];
      if before.readiness != Ready then before
      else if !env.available(c.backend) then before.(readiness := Unavailable)
      else
        var ok := env.prepares(before.trace, c.id);
        Preparation(before.trace + [Prepare(c.id, ok)], if ok then Ready else PrepareFailed)
  }

  function HeldBy(): Action -> seq<string>
  {
    (a: Action) => if a.Prepare? && a.ok then [a.id] else []
  }

  /** The adapters held after some calls: those whose prepare succeeded, in order. */
  function Held(trace: seq<Action>): seq<string>
  {
    Project(HeldBy(), trace)
  }

  /** None when the comparison itself raises. */
  function Evaluate(env: Env, actual: Value, operator: Operator, expected: Value): Option<bool>
  {
    if operator.Eq? || operator.Ne? then env.compare(operator, actual, expected)
    else if actual.Null? then Some(false)
    else env.compare(operator, actual, expected)
  }

  function Actual(metrics: map<PortRef, Value>, name: PortRef): Value
  {
    if name in metrics then metrics[name] else Null
  }

  /** None when a comparison raised; otherwise whether no critical assertion failed. */
  function Judge(env: Env, metrics: map<PortRef, Value>, assertions: seq<Assertion>): Option<bool>
  {
    if assertions == [] then Some(true)
    else
      var before := Judge(env, metrics, assertions[..|assertions| - 1]);
      var a := assertions[|assertions| - 1];
      if before.None? then None
      else
        match Evaluate(env, Actual(metrics, a.metric), a.operator, a.expected)
        case None => None
        case Some(passed) => Some(before.value && (passed || !a.critical))
  }

  function Shutdowns(ids: seq<string>): (r: seq<Action>)
    ensures |r| == |ids|
    ensures forall i :: 0 <= i < |r| ==> r[i] == Shutdown(ids[i])
  {
    seq(|ids|, i requires 0 <= i < |ids| => Shutdown(ids[i]))
  }

  function LastSnapshots(ids: seq<string>): (r: seq<Action>)
    ensures |r| == |ids|
    ensures forall i :: 0 <= i < |r| ==> r[i] == Snapshot(ids[i], None)
  {
    seq(|ids|, i requires 0 <= i < |ids| => Snapshot(ids[i], None))
  }

  datatype Outcome = Outcome(status: RunStatus, trace: seq<Action>, metrics: map<PortRef, Value>)

  /** Every exit path ends the same way: optional last snapshots, shutdowns, one finalize. */
  function Close(trace: seq<Action>, metrics: map<PortRef, Value>, status: RunStatus, salvage: bool): (r: Outcome)
    ensures r.status == status && r.metrics == metrics
  {
    var ids := Held(trace);
    Outcome(status,
            trace + (if salvage then LastSnapshots(ids) else []) + Shutdowns(ids) + [Finalize(status)],
            metrics)
  }

  /** The number of instants in range(0, duration, quantum). */
  function TickCount(duration: nat, quantum: nat): nat
    requires quantum > 0
  {
    (duration + quantum - 1) / quantum
  }

  function StartWorld(trace: seq<Action>): World
  {
    World(trace, map[], map[], Going)
  }

  /** The outcome of a prepared run, from the world its loop ends in. */
  function Ending(e: Experiment, env: Env, w: World): Outcome
  {
    match w.halt
    case Cancelled => Close(w.trace, w.metrics, CANCELLED, false)
    case Raised => Close(w.trace, w.metrics, FAILED, true)
    case Going =>
      match Judge(env, w.metrics, e.assertions)
      case None => Close(w.trace, w.metrics, FAILED, true)
      case Some(held) => Close(w.trace, w.metrics, if held then PASSED else FAILED, false)
  }

  /** A whole run whose loop ticks every quantum microseconds. */
  function RunAt(system: System, e: Experiment, env: Env, quantum: nat): Outcome
    requires quantum > 0
  {
    var prepared := PrepareUpTo(system, env, |system.components|);
    match prepared.readiness
    case Unavailable => Close(prepared.trace, map[], BLOCKED, false)
    case PrepareFailed => Close(prepared.trace, map[], FAILED, true)
    case Ready =>
      var w := Loop(system, e, env, quantum, StartWorld(prepared.trace), TickCount(e.durationUs, quantum));
      Ending(e, env, w)
  }

  function RunSpec(system: System, e: Experiment, env: Env): Outcome
    requires e.macroStepUs > 0
  {
    RunAt(system, e, env, Quantum(system, e))
  }
}
