// The main results about a run of the scheduler, for every prefix of complete ticks.
module SchedulerTheorems {
  import opened Common
  import opened Divisibility
  import opened SchedulerItems
  import opened SchedulerModel
  import opened SchedulerQuantum
  import opened SchedulerLossless
  import opened SchedulerTiming

  /** A loop entered with only prepare calls behind it, whose first n ticks all completed. */
  ghost predicate CompleteTicks(system: System, e: Experiment, env: Env, q: nat, trace: seq<Action>, n: nat)
  {
    && ValidSystem(system) && TickFits(q, e.macroStepUs, system.components)
    && (forall a <- trace :: a.Prepare?)
    && Loop(system, e, env, q, StartWorld(trace), n).halt == Going
  }

  lemma NoTick(system: System, e: Experiment, env: Env, q: nat, trace: seq<Action>)
    requires CompleteTicks(system, e, env, q, trace, 0)
    ensures q > 0 && Loop(system, e, env, q, StartWorld(trace), 0) == StartWorld(trace)
    ensures forall i :: 0 <= i < |trace| ==> trace[i].Prepare?
  {
    assert forall i :: 0 <= i < |trace| ==> trace[i] in trace;
  }

  lemma LastTick(system: System, e: Experiment, env: Env, q: nat, trace: seq<Action>, n: nat)
    requires n > 0 && CompleteTicks(system, e, env, q, trace, n)
    ensures q > 0 && ValidSystem(system) && TickFits(q, e.macroStepUs, system.components)
    ensures CompleteTicks(system, e, env, q, trace, n - 1)
    ensures ((n - 1) * q) % q == 0 && n * q == (n - 1) * q + q
    ensures var w := Loop(system, e, env, q, StartWorld(trace), n - 1);
            && Tick(system, e, env, q, w, (n - 1) * q).halt == Going
            && Loop(system, e, env, q, StartWorld(trace), n) == Tick(system, e, env, q, w, (n - 1) * q)
  {
    hide Tick, TickFits, ValidSystem;
    FitsPositive(q, e.macroStepUs, system.components);
    GoingBefore(system, e, env, q, Loop(system, e, env, q, StartWorld(trace), n - 1), (n - 1) * q);
    GridStep(q, n);
  }

  lemma FitsPositive(q: nat, macroStep: nat, components: seq<Component>)
    requires TickFits(q, macroStep, components)
    ensures q > 0 && macroStep % q == 0
  {
  }

  lemma GoingBefore(system: System, e: Experiment, env: Env, q: nat, w: World, t: nat)
    requires q > 0 && Tick(system, e, env, q, w, t).halt == Going
    ensures w.halt == Going
  {
    hide *;
    TickShape(system, e, env, q, w, t);
  }

  // ---- Exactly-once delivery --------------------------------------------------------------

  lemma OwedElsewhere(system: System, quantum: nat, t: nat, steps: seq<Action>, k: nat)
    requires StepsAt(system, quantum, t, steps)
    requires forall j :: 0 <= j < |system.components| ==> k != t + Period(system.components[j], quantum)
    ensures Project(Owed(system.connections, k), steps) == []
  {
    ProjectNothing(Owed(system.connections, k), steps);
  }

  lemma PeriodsOnGrid(system: System, e: Experiment, q: nat, t: nat)
    requires ValidSystem(system) && TickFits(q, e.macroStepUs, system.components) && t % q == 0
    ensures forall j :: 0 <= j < |system.components| ==>
      var s := Period(system.components[j], q); s > 0 && s % q == 0 && (t + s) % q == 0 && t + s >= t + q
  {
    forall j | 0 <= j < |system.components|
      ensures var s := Period(system.components[j], q); s > 0 && s % q == 0 && (t + s) % q == 0 && t + s >= t + q
    {
      var s := Period(system.components[j], q);
      assert system.components[j] in system.components;
      MultipleMod(q, 1);
      SumOfMultiples(q, t, s);
      NextMultiple(q, t, t + s);
    }
  }

  /**
    The ledger of deliveries at any instant k. Everything owed at k has been injected, once and in
    order, as soon as k lies in a complete tick, and nothing is injected there otherwise; everything
    owed later waits in the queue; and nothing waits at an instant that is past or between ticks.
   */
  lemma {:induction false} DeliveryLedger(system: System, e: Experiment, env: Env, q: nat, trace: seq<Action>, n: nat, k: nat)
    requires CompleteTicks(system, e, env, q, trace, n)
    ensures var w := Loop(system, e, env, q, StartWorld(trace), n);
            var owed := Project(Owed(system.connections, k), w.trace);
            && Project(Injected(Delivered, k), w.trace) == (if k < n * q then owed else [])
            && QueuedAt(w.pending, k) == (if k >= n * q then owed else [])
            && (k % q != 0 ==> owed == [])
  {
    hide *;
    if n == 0 {
      NoTick(system, e, env, q, trace);
      OthersForeign(system.connections, "", Delivered, k, trace);
      NothingQueued(trace, k);
    } else {
      LastTick(system, e, env, q, trace, n);
      DeliveryLedger(system, e, env, q, trace, n - 1, k);
      LedgerTick(system, e, env, q, Loop(system, e, env, q, StartWorld(trace), n - 1), (n - 1) * q, k);
    }
  }

  lemma NothingQueued(trace: seq<Action>, k: nat)
    ensures StartWorld(trace).trace == trace && QueuedAt(StartWorld(trace).pending, k) == []
  {
  }

  lemma LedgerTick(system: System, e: Experiment, env: Env, q: nat, w: World, t: nat, k: nat)
    requires ValidSystem(system) && TickFits(q, e.macroStepUs, system.components) && t % q == 0
    requires Tick(system, e, env, q, w, t).halt == Going
    requires var owed := Project(Owed(system.connections, k), w.trace);
             && Project(Injected(Delivered, k), w.trace) == (if k < t then owed else [])
             && QueuedAt(w.pending, k) == (if k >= t then owed else [])
             && (k % q != 0 ==> owed == [])
    ensures var w' := Tick(system, e, env, q, w, t);
            var owed := Project(Owed(system.connections, k), w'.trace);
            && Project(Injected(Delivered, k), w'.trace) == (if k < t + q then owed else [])
            && QueuedAt(w'.pending, k) == (if k >= t + q then owed else [])
            && (k % q != 0 ==> owed == [])
  {
    hide Tick, TickSteps, Owed, Injected, Project;
    var steps := TickSteps(system, e, env, q, w, t);
    TickOwed(system, e, env, q, w, t, k);
    TickInjected(system, e, env, q, w, t, Delivered, k);
    TickQueue(system, e, env, q, w, t, k);
    TickStepsAreSteps(system, e, env, q, w, t);
    PeriodsOnGrid(system, e, q, t);
    if k < t + q || k % q != 0 {
      OwedElsewhere(system, q, t, steps, k);
    }
    if t < k < t + q {
      InsideCell(q, t, k - t);
    }
  }

  // ---- Timeline ---------------------------------------------------------------------------

  /** The calls of the timeline at an instant, as the buckets of the document hold them. */
  lemma {:induction false} TimelineCalls(system: System, e: Experiment, env: Env, q: nat, trace: seq<Action>, n: nat, k: nat)
    requires CompleteTicks(system, e, env, q, trace, n)
    ensures var w := Loop(system, e, env, q, StartWorld(trace), n);
            var onTick := k < n * q && k % q == 0;
            && Project(Injected(Stimulated, k), w.trace) == (if onTick then TimelineAt(e.stimuli, k) else [])
            && Project(Injected(Faulted, k), w.trace) == (if onTick then TimelineAt(FaultTimeline(e.faults), k) else [])
  {
    hide *;
    if n == 0 {
      NoTick(system, e, env, q, trace);
      NothingQueued(trace, k);
      OthersForeign(system.connections, "", Stimulated, k, trace);
      OthersForeign(system.connections, "", Faulted, k, trace);
    } else {
      LastTick(system, e, env, q, trace, n);
      TimelineCalls(system, e, env, q, trace, n - 1, k);
      var w := Loop(system, e, env, q, StartWorld(trace), n - 1);
      TimelineTick(system, e, env, q, w, (n - 1) * q, k);
      TimelineItems(e, w, (n - 1) * q);
    }
  }

  lemma TimelineItems(e: Experiment, w: World, t: nat)
    ensures ItemsAt(e, w, Stimulated, t) == TimelineAt(e.stimuli, t)
    ensures ItemsAt(e, w, Faulted, t) == TimelineAt(FaultTimeline(e.faults), t)
  {
  }

  /**
    Stimuli and faults: those stamped k are injected exactly once, in list order, with their own target
    and value, when k is a tick of the loop, and never otherwise - so one stamped off the grid, or at the
    duration, is lost.
   */
  lemma TimelineLedger(system: System, e: Experiment, env: Env, q: nat, trace: seq<Action>, n: nat, k: nat)
    requires CompleteTicks(system, e, env, q, trace, n)
    ensures var log := Loop(system, e, env, q, StartWorld(trace), n).trace;
            var stimulated, faulted := Project(Injected(Stimulated, k), log), Project(Injected(Faulted, k), log);
            if k < n * q && k % q == 0 then
              StimuliListed(e.stimuli, k, stimulated) && FaultsListed(e.faults, k, faulted)
            else stimulated == [] && faulted == []
  {
    hide Loop, TimelineAt, FaultTimeline, Project, Injected, StimuliAt, FaultsAt;
    TimelineCalls(system, e, env, q, trace, n, k);
    var ix := TimelineIs(e.stimuli, k);
    var jx := FaultsAre(e.faults, k);
  }

  lemma TimelineTick(system: System, e: Experiment, env: Env, q: nat, w: World, t: nat, k: nat)
    requires q > 0 && t % q == 0 && Tick(system, e, env, q, w, t).halt == Going
    ensures forall origin ::
              Project(Injected(origin, k), Tick(system, e, env, q, w, t).trace)
              == Project(Injected(origin, k), w.trace) + (if k == t then ItemsAt(e, w, origin, t) else [])
    ensures (k < t + q && k % q == 0) <==> (k == t || (k < t && k % q == 0))
  {
    hide *;
    forall origin {
      TickInjected(system, e, env, q, w, t, origin, k);
    }
    if t < k < t + q {
      InsideCell(q, t, k - t);
    }
  }

  // ---- Steps tile the duration ----------------------------------------------------------------

  /** The first n intervals of a component with the given period: [0, s), [s, 2s), ... */
  function Tiles(s: nat, n: nat): (r: seq<(nat, nat)>)
    ensures |r| == n
    ensures forall i :: 0 <= i < n ==> r[i] == (i * s, s)
  {
    seq(n, i requires 0 <= i < n => (i * s, s))
  }

  function Ceiling(x: nat, s: nat): nat
    requires s > 0
  {
    (x + s - 1) / s
  }

  lemma CeilingStep(q: nat, s: nat, t: nat)
    requires q > 0 && s > 0 && s % q == 0 && t % q == 0
    ensures Ceiling(t + q, s) == Ceiling(t, s) + (if t % s == 0 then 1 else 0)
    ensures t % s == 0 ==> Ceiling(t, s) * s == t
  {
    hide Ceiling;
    var m, r := t / s, t % s;
    assert t == s * m + r;
    if r == 0 {
      CeilingOnStart(q, s, m);
    } else {
      CeilingInside(q, s, m, r);
    }
  }

  lemma CeilingOnStart(q: nat, s: nat, m: nat)
    requires q > 0 && s > 0 && s % q == 0
    ensures Ceiling(s * m + q, s) == m + 1 && Ceiling(s * m, s) == m
  {
    NextMultiple(q, 0, s);
    QuotientUnique(s * m + s - 1, s, m, s - 1);
    assert s * m + q + s - 1 == s * (m + 1) + (q - 1);
    QuotientUnique(s * m + q + s - 1, s, m + 1, q - 1);
  }

  lemma CeilingInside(q: nat, s: nat, m: nat, r: nat)
    requires q > 0 && s > 0 && s % q == 0 && (s * m + r) % q == 0 && 0 < r < s
    ensures Ceiling(s * m + r + q, s) == m + 1 == Ceiling(s * m + r, s)
  {
    assert r + q <= s by {
      ScaledMultiple(q, s, m);
      SumOfMultiples(q, s * m + r, s * m);
      NextMultiple(q, r, s);
    }
    assert s * m + r + s - 1 == s * (m + 1) + (r - 1);
    QuotientUnique(s * m + r + s - 1, s, m + 1, r - 1);
    assert s * m + r + q + s - 1 == s * (m + 1) + (r + q - 1);
    QuotientUnique(s * m + r + q + s - 1, s, m + 1, r + q - 1);
  }

  /**
    Multi-rate tiling: after n ticks a component has been stepped over [0, s), [s, 2s), ... in
    order, with no gap, overlap or repetition, as often as its period starts below n * q.
   */
  lemma {:induction false} StepsTile(system: System, e: Experiment, env: Env, q: nat, trace: seq<Action>, n: nat, i: nat)
    requires CompleteTicks(system, e, env, q, trace, n) && i < |system.components|
    requires Period(system.components[i], q) > 0
    ensures var c := system.components[i];
            Project(StepsOf(c.id), Loop(system, e, env, q, StartWorld(trace), n).trace)
            == Tiles(Period(c, q), Ceiling(n * q, Period(c, q)))
  {
    hide *;
    if n == 0 {
      NoTick(system, e, env, q, trace);
      NothingQueued(trace, 0);
      OthersForeign(system.connections, system.components[i].id, Delivered, 0, trace);
      NoTiles(Period(system.components[i], q));
    } else {
      LastTick(system, e, env, q, trace, n);
      StepsTile(system, e, env, q, trace, n - 1, i);
      TileTick(system, e, env, q, Loop(system, e, env, q, StartWorld(trace), n - 1), (n - 1) * q, i);
    }
  }

  lemma NoTiles(s: nat)
    requires s > 0
    ensures Tiles(s, Ceiling(0, s)) == []
  {
    QuotientUnique(s - 1, s, 0, s - 1);
  }

  lemma TileTick(system: System, e: Experiment, env: Env, q: nat, w: World, t: nat, i: nat)
    requires ValidSystem(system) && TickFits(q, e.macroStepUs, system.components) && i < |system.components|
    requires t % q == 0 && Tick(system, e, env, q, w, t).halt == Going && Period(system.components[i], q) > 0
    requires var c := system.components[i]; Project(StepsOf(c.id), w.trace) == Tiles(Period(c, q), Ceiling(t, Period(c, q)))
    ensures var c := system.components[i];
            Project(StepsOf(c.id), Tick(system, e, env, q, w, t).trace) == Tiles(Period(c, q), Ceiling(t + q, Period(c, q)))
  {
    hide Tick, StepsOf, Project, Tiles, Ceiling, ValidSystem;
    var s := Period(system.components[i], q);
    PeriodsOnGrid(system, e, q, t);
    TickStepsOf(system, e, env, q, w, t, i);
    CeilingStep(q, s, t);
    TilesGrow(s, Ceiling(t, s));
  }

  lemma TilesGrow(s: nat, n: nat)
    ensures Tiles(s, n + 1) == Tiles(s, n) + [(n * s, s)]
    ensures Tiles(s, n) == Tiles(s, n) + []
  {
  }

  // ---- Checkpoints ------------------------------------------------------------------------------

  /** interval, 2 * interval, ... */
  function Multiples(interval: nat, n: nat): (r: seq<nat>)
    ensures |r| == n
    ensures forall i :: 0 <= i < n ==> r[i] == (i + 1) * interval
  {
    seq(n, i requires 0 <= i < n => (i + 1) * interval)
  }

  function CheckpointsUpTo(e: Experiment, t: nat): seq<nat>
    requires ValidExperiment(e)
  {
    if e.checkpointUs.None? then [] else Multiples(e.checkpointUs.value, t / e.checkpointUs.value)
  }

  predicate IsProduct(x: int, a: int, b: int)
  {
    x == a * b
  }

  lemma FloorStep(q: nat, s: nat, t: nat) returns (m: nat, m': nat, due: bool)
    requires q > 0 && s > 0 && s % q == 0 && t % q == 0
    ensures m == t / s && m' == (t + q) / s && due == ((t + q) % s == 0)
    ensures m' == m + (if due then 1 else 0) && (due ==> IsProduct(t + q, m', s))
  {
    m, m', due := t / s, (t + q) / s, (t + q) % s == 0;
    var r := t % s;
    assert t == s * m + r;
    FloorNext(q, s, m, r);
  }

  lemma FloorNext(q: nat, s: nat, m: nat, r: nat)
    requires q > 0 && s > 0 && s % q == 0 && (s * m + r) % q == 0 && r < s
    ensures if r + q == s then (s * m + r + q) / s == m + 1 && (s * m + r + q) % s == 0 && s * m + r + q == (m + 1) * s
            else (s * m + r + q) / s == m && (s * m + r + q) % s != 0
  {
    assert r + q <= s by {
      ScaledMultiple(q, s, m);
      SumOfMultiples(q, s * m + r, s * m);
      NextMultiple(q, r, s);
    }
    if r + q == s {
      assert s * m + r + q == s * (m + 1);
      MultipleMod(s, m + 1);
    } else {
      QuotientUnique(s * m + r + q, s, m, r + q);
    }
  }

  /** Checkpoints: every component is snapshot at exactly interval, 2 * interval, ... up to n * q. */
  lemma {:induction false} CheckpointLedger(system: System, e: Experiment, env: Env, q: nat, trace: seq<Action>, n: nat, i: nat)
    requires CompleteTicks(system, e, env, q, trace, n) && i < |system.components|
    requires ValidExperiment(e)
    ensures Project(MarksOf(system.components[i].id), Loop(system, e, env, q, StartWorld(trace), n).trace)
         == CheckpointsUpTo(e, n * q)
  {
    hide *;
    if n == 0 {
      NoTick(system, e, env, q, trace);
      NothingQueued(trace, 0);
      NoCheckpointsYet(e);
      OthersForeign(system.connections, system.components[i].id, Delivered, 0, trace);
    } else {
      LastTick(system, e, env, q, trace, n);
      CheckpointLedger(system, e, env, q, trace, n - 1, i);
      TickMarksOf(system, e, env, q, Loop(system, e, env, q, StartWorld(trace), n - 1), (n - 1) * q, i);
      FitsPositive(q, e.macroStepUs, system.components);
      MarksGrow(e, q, (n - 1) * q);
    }
  }

  lemma MarksGrow(e: Experiment, q: nat, t: nat)
    requires ValidExperiment(e) && q > 0 && e.macroStepUs % q == 0 && t % q == 0
    ensures CheckpointsUpTo(e, t) + MarkDue(e, t + q) == CheckpointsUpTo(e, t + q)
  {
    hide Multiples;
    if e.checkpointUs.Some? {
      var s := e.checkpointUs.value;
      GridMarksGrow(q, s, t) by {
        DividesTransitive(q, e.macroStepUs, s);
      }
    }
  }

  lemma GridMarksGrow(q: nat, s: nat, t: nat)
    requires q > 0 && s > 0 && s % q == 0 && t % q == 0
    ensures Multiples(s, (t + q) / s) == Multiples(s, t / s) + (if (t + q) % s == 0 then [t + q] else [])
  {
    hide IsProduct, Multiples;
    var m, m', due := FloorStep(q, s, t);
    MultiplesGrow(s, m, m', due, t + q);
  }

  lemma NoCheckpointsYet(e: Experiment)
    requires ValidExperiment(e)
    ensures CheckpointsUpTo(e, 0) == []
  {
  }

  lemma MultiplesGrow(s: nat, m: nat, m': nat, due: bool, mark: nat)
    requires m' == m + (if due then 1 else 0) && (due ==> IsProduct(mark, m', s))
    ensures Multiples(s, m') == Multiples(s, m) + (if due then [mark] else [])
  {
  }

  // ---- Order within and between instants ------------------------------------------------------

  /**
    When a call belongs: the checkpoint of an instant, then its deliveries, its stimuli, its
    faults and its steps. Prepare calls belong before all instants.
   */
  function Slot(a: Action): int
  {
    match a
    case Snapshot(_, Some(mark)) => 5 * mark
    case Inject(Delivered, _, _, at) => 5 * at + 1
    case Inject(Stimulated, _, _, at) => 5 * at + 2
    case Inject(Faulted, _, _, at) => 5 * at + 3
    case Step(_, at, _, _) => 5 * at + 4
    case _ => -1
  }

  ghost predicate InOrder(log: seq<Action>, last: int)
  {
    && (forall i, j :: 0 <= i < j < |log| ==> Slot(log[i]) <= Slot(log[j]))
    && (forall i :: 0 <= i < |log| ==> Slot(log[i]) <= last)
  }

  lemma AppendInOrder(log: seq<Action>, last: int, part: seq<Action>, slot: int)
    requires InOrder(log, last) && last <= slot
    requires forall i :: 0 <= i < |part| ==> Slot(part[i]) == slot
    ensures InOrder(log + part, slot)
  {
  }

  lemma PhaseSlots(e: Experiment, w: World, origin: Origin, t: nat)
    ensures forall i :: 0 <= i < |PhaseCalls(e, w, origin, t)| ==>
      Slot(PhaseCalls(e, w, origin, t)[i]) == 5 * t + (match origin case Delivered => 1 case Stimulated => 2 case Faulted => 3)
  {
  }

  lemma TickInOrder(system: System, e: Experiment, env: Env, q: nat, w: World, t: nat)
    requires q > 0 && Tick(system, e, env, q, w, t).halt == Going
    requires InOrder(w.trace, 5 * t)
    ensures InOrder(Tick(system, e, env, q, w, t).trace, 5 * (t + q))
  {
    hide Tick, PhaseCalls, TickSteps, BeforeSteps, StepAll, InOrder;
    TickShape(system, e, env, q, w, t);
    PhaseSlots(e, w, Delivered, t);
    PhaseSlots(e, w, Stimulated, t);
    PhaseSlots(e, w, Faulted, t);
    TickStepsAreSteps(system, e, env, q, w, t);
    var a, b, c := PhaseCalls(e, w, Delivered, t), PhaseCalls(e, w, Stimulated, t), PhaseCalls(e, w, Faulted, t);
    var steps := TickSteps(system, e, env, q, w, t);
    AppendInOrder(w.trace, 5 * t, a, 5 * t + 1);
    AppendInOrder(w.trace + a, 5 * t + 1, b, 5 * t + 2);
    AppendInOrder(w.trace + a + b, 5 * t + 2, c, 5 * t + 3);
    AppendInOrder(w.trace + a + b + c, 5 * t + 3, steps, 5 * t + 4);
    AppendInOrder(w.trace + a + b + c + steps, 5 * t + 4, MarksDue(system, e, t + q), 5 * (t + q));
  }

  /** Calls come in the order of their slots: instant by instant, and phase by phase within one. */
  lemma {:induction false} CallsInOrder(system: System, e: Experiment, env: Env, q: nat, trace: seq<Action>, n: nat)
    requires CompleteTicks(system, e, env, q, trace, n)
    ensures InOrder(Loop(system, e, env, q, StartWorld(trace), n).trace, 5 * (n * q))
  {
    hide Tick, Loop;
    if n == 0 {
      NoTick(system, e, env, q, trace);
    } else {
      hide *;
      LastTick(system, e, env, q, trace, n);
      CallsInOrder(system, e, env, q, trace, n - 1);
      TickInOrder(system, e, env, q, Loop(system, e, env, q, StartWorld(trace), n - 1), (n - 1) * q);
    }
  }

  // ---- Lossless ticking, exactly ----------------------------------------------------------------

  lemma {:induction false} TimelineHolds(items: seq<Timed>, item: Timed)
    requires item in items
    ensures TimelineAt(items, item.atUs) != []
  {
    var front := items[..|items| - 1];
    if item in front {
      TimelineHolds(front, item);
    }
  }

  lemma LostItem(system: System, e: Experiment, env: Env, q: nat, trace: seq<Action>, n: nat, item: Timed)
    requires CompleteTicks(system, e, env, q, trace, n) && CompleteTicks(system, e, env, 1, trace, n * q)
    requires item in e.stimuli || item in FaultTimeline(e.faults)
    requires item.atUs < n * q && item.atUs % q != 0
    ensures Loop(system, e, env, q, StartWorld(trace), n).trace != Loop(system, e, env, 1, StartWorld(trace), n * q).trace
  {
    hide Loop, TimelineAt, FaultTimeline, CompleteTicks;
    TimelineCalls(system, e, env, q, trace, n, item.atUs);
    TimelineCalls(system, e, env, 1, trace, n * q, item.atUs);
    if item in e.stimuli {
      TimelineHolds(e.stimuli, item);
    } else {
      TimelineHolds(FaultTimeline(e.faults), item);
    }
  }

  lemma PeriodicLossless(system: System, e: Experiment, env: Env, q: nat, trace: seq<Action>, n: nat)
    requires SameClock(system, e, env, q, n * q)
    requires CompleteTicks(system, e, env, q, trace, n) && CompleteTicks(system, e, env, 1, trace, n * q)
    ensures Loop(system, e, env, q, StartWorld(trace), n).trace == Loop(system, e, env, 1, StartWorld(trace), n * q).trace
       <==> Aligned(e.stimuli, q, n * q) && Aligned(FaultTimeline(e.faults), q, n * q)
  {
    hide Loop, FaultTimeline, CompleteTicks;
    if Aligned(e.stimuli, q, n * q) && Aligned(FaultTimeline(e.faults), q, n * q) {
      GcdTickingIsLossless(system, e, env, q, n * q, trace, n);
    } else {
      var item :| (item in e.stimuli || item in FaultTimeline(e.faults)) && item.atUs < n * q && item.atUs % q != 0;
      LostItem(system, e, env, q, trace, n, item);
    }
  }

  lemma {:induction false} CompleteIsUninterrupted(system: System, e: Experiment, env: Env, q: nat, trace: seq<Action>, n: nat, i: nat)
    requires CompleteTicks(system, e, env, q, trace, n) && i < n
    ensures env.interrupt(i * q) == NoInterrupt
  {
    hide *;
    LastTick(system, e, env, q, trace, n);
    if i < n - 1 {
      CompleteIsUninterrupted(system, e, env, q, trace, n - 1, i);
    } else {
      TickShape(system, e, env, q, Loop(system, e, env, q, StartWorld(trace), n - 1), (n - 1) * q);
    }
  }

  lemma CompleteClock(system: System, e: Experiment, env: Env, q: nat, trace: seq<Action>, n: nat)
    requires ValidExperiment(e) && TickFits(q, e.macroStepUs, system.components) && AllPeriodic(system.components)
    requires CompleteTicks(system, e, env, 1, trace, n)
    ensures SameClock(system, e, env, q, n)
  {
    hide CompleteTicks;
    forall t: nat | t < n
      ensures env.interrupt(t) == NoInterrupt
    {
      CompleteIsUninterrupted(system, e, env, 1, trace, n, t);
      assert t * 1 == t;
    }
    if e.checkpointUs.Some? {
      DividesTransitive(q, e.macroStepUs, e.checkpointUs.value);
    }
  }

  /** A component without a period takes steps of the tick, so its log tells the tick. */
  lemma AperiodicShowsTick(system: System, e: Experiment, env: Env, q: nat, trace: seq<Action>, n: nat, i: nat)
    requires CompleteTicks(system, e, env, q, trace, n) && CompleteTicks(system, e, env, 1, trace, n * q)
    requires n > 0 && q > 1 && i < |system.components| && system.components[i].stepUs.None?
    ensures Loop(system, e, env, q, StartWorld(trace), n).trace != Loop(system, e, env, 1, StartWorld(trace), n * q).trace
  {
    hide Loop, CompleteTicks, Tiles, Ceiling, Project;
    StepsTile(system, e, env, q, trace, n, i);
    StepsTile(system, e, env, 1, trace, n * q, i);
    FirstTile(q, n, q);
    FirstTile(1, n * q, 1);
    assert (n * q) * 1 == n * q;
  }

  lemma FirstTile(s: nat, n: nat, q: nat)
    requires s > 0 && n * q > 0
    ensures var tiles := Tiles(s, Ceiling(n * q, s)); |tiles| > 0 && tiles[0] == (0, s)
  {
    var x := Ceiling(n * q, s);
    var total := n * q + s - 1;
    assert total == s * x + total % s;
    assert x > 0;
  }

  /**
    Of two complete runs, one ticking at the quantum and one every microsecond, the calls agree if and
    only if every stimulus and fault before the end is aligned to the quantum and every component
    declares a period - or the quantum is a microsecond anyway.
   */
  lemma LosslessExactlyWhenAligned(system: System, e: Experiment, env: Env, q: nat, trace: seq<Action>, n: nat)
    requires ValidExperiment(e) && n > 0
    requires CompleteTicks(system, e, env, q, trace, n) && CompleteTicks(system, e, env, 1, trace, n * q)
    ensures q > 0
    ensures Loop(system, e, env, q, StartWorld(trace), n).trace == Loop(system, e, env, 1, StartWorld(trace), n * q).trace
       <==> q == 1 || (AllPeriodic(system.components) && Aligned(e.stimuli, q, n * q) && Aligned(FaultTimeline(e.faults), q, n * q))
  {
    hide Loop, FaultTimeline, CompleteTicks, Aligned;
    LastTick(system, e, env, q, trace, n);
    if q == 1 {
      assert n * q == n;
    } else if AllPeriodic(system.components) {
      CompleteClock(system, e, env, q, trace, n * q);
      PeriodicLossless(system, e, env, q, trace, n);
    } else {
      var c :| c in system.components && !(c.stepUs.Some? && c.stepUs.value > 0);
      var i :| 0 <= i < |system.components| && system.components[i] == c;
      AperiodicShowsTick(system, e, env, q, trace, n, i);
    }
  }
}
