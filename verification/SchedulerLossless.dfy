// Ticking at the quantum loses nothing: a loop that ticks every microsecond
// goes through the same worlds.
module SchedulerLossless {
  import opened Common
  import opened Divisibility
  import opened SchedulerModel
  import opened SchedulerQuantum

  ghost predicate AllPeriodic(components: seq<Component>)
  {
    forall c <- components :: c.stepUs.Some? && c.stepUs.value > 0
  }

  ghost predicate Aligned(items: seq<Timed>, q: nat, end: nat)
    requires q > 0
  {
    forall item <- items :: item.atUs < end ==> item.atUs % q == 0
  }

  /** Everything but the timeline happens at multiples of q below the end. */
  ghost predicate SameClock(system: System, e: Experiment, env: Env, q: nat, end: nat)
  {
    && TickFits(q, e.macroStepUs, system.components)
    && AllPeriodic(system.components)
    && (e.checkpointUs.Some? ==> e.checkpointUs.value > 0 && e.checkpointUs.value % q == 0)
    && (forall t: nat :: t < end && env.interrupt(t) != NoInterrupt ==> t % q == 0)
  }

  /** q divides every instant below the end at which something is meant to happen. */
  ghost predicate Fine(system: System, e: Experiment, env: Env, q: nat, end: nat)
  {
    SameClock(system, e, env, q, end) && Aligned(e.stimuli, q, end) && Aligned(FaultTimeline(e.faults), q, end)
  }

  ghost predicate PendingAligned(w: World, q: nat)
    requires q > 0
  {
    forall k <- w.pending :: k % q == 0
  }

  // ---- The queue only ever holds multiples of the tick --------------------------------

  lemma {:induction false} InjectAllPending(system: System, env: Env, w: World, origin: Origin, items: seq<(PortRef, Value)>, t: nat)
    ensures InjectAll(system, env, w, origin, items, t).pending == w.pending
  {
    if items == [] {
    } else {
      InjectAllPending(system, env, w, origin, items[..|items| - 1], t);
    }
  }

  lemma {:induction false} StepAllPending(system: System, env: Env, quantum: nat, q: nat, w: World, n: nat, t: nat)
    requires quantum > 0 && n <= |system.components| && q > 0
    requires forall c <- system.components :: Period(c, quantum) % q == 0
    requires t % q == 0 && PendingAligned(w, q)
    ensures PendingAligned(StepAll(system, env, quantum, w, n, t), q)
  {
    if n == 0 {
    } else {
      StepAllPending(system, env, quantum, q, w, n - 1, t);
      SumOfMultiples(q, t, Period(system.components[n - 1], quantum));
    }
  }

  lemma {:induction false} SnapshotAllPending(system: System, env: Env, w: World, n: nat, mark: nat)
    requires n <= |system.components|
    ensures SnapshotAll(system, env, w, n, mark).pending == w.pending
  {
    if n == 0 {
    } else {
      SnapshotAllPending(system, env, w, n - 1, mark);
    }
  }

  lemma BodyPending(system: System, e: Experiment, env: Env, quantum: nat, q: nat, w: World, t: nat)
    requires quantum > 0 && q > 0 && t % q == 0 && PendingAligned(w, q)
    requires forall c <- system.components :: Period(c, quantum) % q == 0
    ensures PendingAligned(TickBody(system, e, env, quantum, w, t), q)
  {
    if w.halt == Going && env.interrupt(t) == NoInterrupt {
      var w0 := w.(pending := w.pending - {t});
      var w1 := InjectAll(system, env, w0, Delivered, QueuedAt(w.pending, t), t);
      var w2 := InjectAll(system, env, w1, Stimulated, TimelineAt(e.stimuli, t), t);
      var w3 := InjectAll(system, env, w2, Faulted, TimelineAt(FaultTimeline(e.faults), t), t);
      InjectAllPending(system, env, w0, Delivered, QueuedAt(w.pending, t), t);
      InjectAllPending(system, env, w1, Stimulated, TimelineAt(e.stimuli, t), t);
      InjectAllPending(system, env, w2, Faulted, TimelineAt(FaultTimeline(e.faults), t), t);
      StepAllPending(system, env, quantum, q, w3, |system.components|, t);
    }
  }

  lemma TickPending(system: System, e: Experiment, env: Env, quantum: nat, q: nat, w: World, t: nat)
    requires quantum > 0 && q > 0 && t % q == 0 && PendingAligned(w, q)
    requires forall c <- system.components :: Period(c, quantum) % q == 0
    ensures PendingAligned(Tick(system, e, env, quantum, w, t), q)
  {
    BodyPending(system, e, env, quantum, q, w, t);
    SnapshotAllPending(system, env, TickBody(system, e, env, quantum, w, t), |system.components|, t + quantum);
  }

  /** No queued delivery is ever keyed between two ticks. */
  lemma {:induction false} QueueStaysAligned(system: System, e: Experiment, env: Env, q: nat, trace: seq<Action>, n: nat)
    requires TickFits(q, e.macroStepUs, system.components)
    ensures PendingAligned(Loop(system, e, env, q, StartWorld(trace), n), q)
  {
    hide Tick, Period;
    if n == 0 {
    } else {
      QueueStaysAligned(system, e, env, q, trace, n - 1);
      GridStep(q, n);
      PeriodsFit(q, e.macroStepUs, system.components);
      TickPending(system, e, env, q, q, Loop(system, e, env, q, StartWorld(trace), n - 1), (n - 1) * q);
    }
  }

  lemma PeriodsFit(q: nat, macroStep: nat, components: seq<Component>)
    requires TickFits(q, macroStep, components)
    ensures q > 0 && forall c <- components :: Period(c, q) % q == 0
  {
    MultipleMod(q, 1);
  }

  // ---- A tick between two multiples does nothing ------------------------------------------

  lemma {:induction false} TimelineEmptyOffGrid(items: seq<Timed>, q: nat, end: nat, t: nat)
    requires q > 0 && Aligned(items, q, end) && t < end && t % q != 0
    ensures TimelineAt(items, t) == []
  {
    if items == [] {
    } else {
      var front := items[..|items| - 1];
      assert forall item <- front :: item in items;
      TimelineEmptyOffGrid(front, q, end, t);
      assert items[|items| - 1] in items;
    }
  }

  lemma {:induction false} NothingDueOffGrid(system: System, env: Env, q: nat, w: World, n: nat, t: nat)
    requires q > 0 && n <= |system.components| && t % q != 0
    requires AllPeriodic(system.components)
    requires forall c <- system.components :: c.stepUs.Some? ==> c.stepUs.value % q == 0
    ensures StepAll(system, env, 1, w, n, t) == w
  {
    if n == 0 {
    } else {
      NothingDueOffGrid(system, env, q, w, n - 1, t);
      var s := system.components[n - 1].stepUs.value;
      if t % s == 0 {
        DividesTransitive(q, s, t);
      }
    }
  }

  lemma IdleTick(system: System, e: Experiment, env: Env, q: nat, end: nat, w: World, t: nat)
    requires Fine(system, e, env, q, end) && t < end && PendingAligned(w, q) && t % q != 0
    ensures TickBody(system, e, env, 1, w, t) == w
  {
    if w.halt == Going {
      TimelineEmptyOffGrid(e.stimuli, q, end, t);
      TimelineEmptyOffGrid(FaultTimeline(e.faults), q, end, t);
      assert t !in w.pending;
      assert w.pending - {t} == w.pending;
      assert w.(pending := w.pending - {t}) == w;
      NothingDueOffGrid(system, env, q, w, |system.components|, t);
    }
  }

  lemma {:induction false} SameStepsAtAnyTick(system: System, env: Env, q: nat, w: World, n: nat, t: nat)
    requires q > 0 && n <= |system.components| && AllPeriodic(system.components)
    ensures StepAll(system, env, 1, w, n, t) == StepAll(system, env, q, w, n, t)
  {
    if n == 0 {
    } else {
      SameStepsAtAnyTick(system, env, q, w, n - 1, t);
    }
  }

  lemma SameBodyAtAnyTick(system: System, e: Experiment, env: Env, q: nat, w: World, t: nat)
    requires q > 0 && AllPeriodic(system.components)
    ensures TickBody(system, e, env, 1, w, t) == TickBody(system, e, env, q, w, t)
  {
    if w.halt == Going && env.interrupt(t) == NoInterrupt {
      var w1 := InjectAll(system, env, w.(pending := w.pending - {t}), Delivered, QueuedAt(w.pending, t), t);
      var w2 := InjectAll(system, env, w1, Stimulated, TimelineAt(e.stimuli, t), t);
      var w3 := InjectAll(system, env, w2, Faulted, TimelineAt(FaultTimeline(e.faults), t), t);
      SameStepsAtAnyTick(system, env, q, w3, |system.components|, t);
    }
  }

  /** No checkpoint is due at an instant that is not a multiple of the tick. */
  lemma NoCheckpointOffGrid(system: System, e: Experiment, env: Env, q: nat, end: nat, w: World, mark: nat)
    requires SameClock(system, e, env, q, end) && mark % q != 0
    ensures Checkpoint(system, e, env, w, mark) == w
  {
    if e.checkpointUs.Some? && mark % e.checkpointUs.value == 0 {
      DividesTransitive(q, e.checkpointUs.value, mark);
    }
  }

  // ---- One quantum against its microseconds ---------------------------------------------------

  lemma MicrosecondTick(system: System, e: Experiment, env: Env, w0: World, t: nat)
    ensures Loop(system, e, env, 1, w0, t + 1) == Tick(system, e, env, 1, Loop(system, e, env, 1, w0, t), t)
  {
  }

  lemma IdleMicrosecond(system: System, e: Experiment, env: Env, q: nat, end: nat, w: World, t: nat)
    requires Fine(system, e, env, q, end) && t < end && PendingAligned(w, q) && t % q != 0
    ensures Tick(system, e, env, 1, w, t) == Checkpoint(system, e, env, w, t + 1)
  {
    IdleTick(system, e, env, q, end, w, t);
  }

  lemma FinePeriods(system: System, e: Experiment, env: Env, q: nat, end: nat)
    requires SameClock(system, e, env, q, end)
    ensures forall c <- system.components :: Period(c, q) % q == 0
  {
  }

  /** j one-microsecond ticks into a quantum: only the opening tick did anything so far. */
  lemma {:induction false} WithinQuantum(system: System, e: Experiment, env: Env, q: nat, end: nat, w0: World, t: nat, j: nat)
    requires Fine(system, e, env, q, end) && 0 < j < q && t % q == 0 && t + j <= end
    requires PendingAligned(Loop(system, e, env, 1, w0, t), q)
    ensures Loop(system, e, env, 1, w0, t + j)
         == TickBody(system, e, env, q, Loop(system, e, env, 1, w0, t), t)
  {
    hide TickBody, Checkpoint;
    var w := Loop(system, e, env, 1, w0, t);
    var body := TickBody(system, e, env, q, w, t);
    InsideCell(q, t, j);
    MicrosecondTick(system, e, env, w0, t + j - 1);
    NoCheckpointOffGrid(system, e, env, q, end, body, t + j);
    if j == 1 {
      SameBodyAtAnyTick(system, e, env, q, w, t);
    } else {
      WithinQuantum(system, e, env, q, end, w0, t, j - 1);
      InsideCell(q, t, j - 1);
      FinePeriods(system, e, env, q, end);
      BodyPending(system, e, env, q, q, w, t);
      IdleMicrosecond(system, e, env, q, end, body, t + j - 1);
    }
  }

  lemma OneQuantum(system: System, e: Experiment, env: Env, q: nat, end: nat, w0: World, t: nat)
    requires Fine(system, e, env, q, end) && t % q == 0 && t + q <= end
    requires PendingAligned(Loop(system, e, env, 1, w0, t), q)
    ensures Loop(system, e, env, 1, w0, t + q)
         == Tick(system, e, env, q, Loop(system, e, env, 1, w0, t), t)
  {
    hide TickBody, Checkpoint;
    var w := Loop(system, e, env, 1, w0, t);
    MicrosecondTick(system, e, env, w0, t + q - 1);
    if q != 1 {
      var body := TickBody(system, e, env, q, w, t);
      WithinQuantum(system, e, env, q, end, w0, t, q - 1);
      InsideCell(q, t, q - 1);
      FinePeriods(system, e, env, q, end);
      BodyPending(system, e, env, q, q, w, t);
      IdleMicrosecond(system, e, env, q, end, body, t + q - 1);
    }
  }

  /**
    Lossless ticking: after n quanta the world is the one that n * q one-microsecond ticks
    reach - the same calls in the same order, the same queue, the same metrics, the same end.
   */
  lemma {:induction false} GcdTickingIsLossless(system: System, e: Experiment, env: Env, q: nat, end: nat, trace: seq<Action>, n: nat)
    requires Fine(system, e, env, q, end) && n * q <= end
    ensures Loop(system, e, env, q, StartWorld(trace), n) == Loop(system, e, env, 1, StartWorld(trace), n * q)
  {
    hide *;
    FineFits(system, e, env, q, end);
    var w0 := StartWorld(trace);
    if n == 0 {
      NoTicks(system, e, env, q, w0);
      NoTicks(system, e, env, 1, w0);
    } else {
      GridStep(q, n);
      GcdTickingIsLossless(system, e, env, q, end, trace, n - 1);
      QueueStaysAligned(system, e, env, q, trace, n - 1);
      LastOfTicks(system, e, env, q, w0, n);
      OneQuantum(system, e, env, q, end, w0, (n - 1) * q);
    }
  }

  lemma NoTicks(system: System, e: Experiment, env: Env, q: nat, w0: World)
    requires q > 0
    ensures Loop(system, e, env, q, w0, 0) == w0
  {
  }

  lemma LastOfTicks(system: System, e: Experiment, env: Env, q: nat, w0: World, n: nat)
    requires q > 0 && n > 0
    ensures Loop(system, e, env, q, w0, n) == Tick(system, e, env, q, Loop(system, e, env, q, w0, n - 1), (n - 1) * q)
  {
  }

  lemma FineFits(system: System, e: Experiment, env: Env, q: nat, end: nat)
    requires Fine(system, e, env, q, end)
    ensures q > 0 && TickFits(q, e.macroStepUs, system.components)
  {
  }
}
