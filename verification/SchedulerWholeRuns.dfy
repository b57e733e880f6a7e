// Whole runs, however they end, ticking at the quantum and ticking every microsecond.
module SchedulerWholeRuns {
  import opened Common
  import opened Divisibility
  import opened SchedulerModel
  import opened SchedulerQuantum
  import opened SchedulerLossless
  import opened SchedulerTiming
  import opened SchedulerTheorems
  import opened SchedulerProtocol

  // ---- A loop that stopped -----------------------------------------------------------------------------

  lemma {:induction false} SnapshotsStopped(system: System, env: Env, w: World, n: nat, mark: nat)
    requires n <= |system.components| && w.halt != Going
    ensures SnapshotAll(system, env, w, n, mark) == w
  {
    if n == 0 {
    } else {
      SnapshotsStopped(system, env, w, n - 1, mark);
    }
  }

  lemma StoppedTick(system: System, e: Experiment, env: Env, q: nat, w: World, t: nat)
    requires q > 0 && w.halt != Going
    ensures Tick(system, e, env, q, w, t) == w
  {
    SnapshotsStopped(system, env, w, |system.components|, t + q);
  }

  lemma {:induction false} StoppedLoop(system: System, e: Experiment, env: Env, q: nat, w: World, i: nat, j: nat)
    requires q > 0 && i <= j && Loop(system, e, env, q, w, i).halt != Going
    ensures Loop(system, e, env, q, w, j) == Loop(system, e, env, q, w, i)
  {
    hide Tick;
    if i == j {
    } else {
      StoppedLoop(system, e, env, q, w, i, j - 1);
      StoppedTick(system, e, env, q, Loop(system, e, env, q, w, j - 1), (j - 1) * q);
    }
  }

  /** The first instant by which a loop that stops has stopped. */
  lemma {:induction false} FirstStop(system: System, e: Experiment, env: Env, w: World, n: nat) returns (h: nat)
    requires w.halt == Going && Loop(system, e, env, 1, w, n).halt != Going
    ensures 0 < h <= n && Loop(system, e, env, 1, w, h).halt != Going
    ensures forall m: nat :: m < h ==> Loop(system, e, env, 1, w, m).halt == Going
  {
    hide Tick;
    if Loop(system, e, env, 1, w, n - 1).halt != Going {
      h := FirstStop(system, e, env, w, n - 1);
    } else {
      h := n;
      forall m: nat | m < h
        ensures Loop(system, e, env, 1, w, m).halt == Going
      {
        if Loop(system, e, env, 1, w, m).halt != Going {
          StoppedLoop(system, e, env, 1, w, m, n - 1);
        }
      }
    }
  }

  // ---- Nothing unaligned before the stop ------------------------------------------------------------------

  /** Both loops stop in the same world when nothing unaligned was due before. */
  lemma SameStop(system: System, e: Experiment, env: Env, q: nat, h: nat, trace: seq<Action>)
    requires Fine(system, e, env, q, h) && h > 0 && Loop(system, e, env, 1, StartWorld(trace), h).halt != Going
    ensures q > 0
    ensures var n := (h + q - 1) / q;
            Loop(system, e, env, q, StartWorld(trace), n) == Loop(system, e, env, 1, StartWorld(trace), h)
  {
    hide *;
    FineFits(system, e, env, q, h);
    var w0 := StartWorld(trace);
    var m, j := UpTo(h, q);
    GcdTickingIsLossless(system, e, env, q, h, trace, m);
    if j > 0 {
      QueueStaysAligned(system, e, env, q, trace, m);
      WithinQuantum(system, e, env, q, h, w0, m * q, j);
      LastOfTicks(system, e, env, q, w0, m + 1);
      StoppedCheckpoint(system, e, env, Loop(system, e, env, 1, w0, h), m * q + q);
      TickIs(system, e, env, q, Loop(system, e, env, q, w0, m), m * q);
    }
  }

  /** h is j past the m-th multiple of q. */
  lemma UpTo(h: nat, q: nat) returns (m: nat, j: nat)
    requires q > 0
    ensures m * q + j == h && j < q && (m * q) % q == 0 && (h + q - 1) / q == if j == 0 then m else m + 1
  {
    m, j := h / q, h % q;
    assert h == q * m + j;
    MultipleMod(q, m);
    if j == 0 {
      QuotientUnique(h + q - 1, q, m, q - 1);
    } else {
      assert h + q - 1 == q * (m + 1) + (j - 1);
      QuotientUnique(h + q - 1, q, m + 1, j - 1);
    }
  }

  lemma TickIs(system: System, e: Experiment, env: Env, q: nat, w: World, t: nat)
    requires q > 0
    ensures Tick(system, e, env, q, w, t) == Checkpoint(system, e, env, TickBody(system, e, env, q, w, t), t + q)
  {
  }

  lemma StoppedCheckpoint(system: System, e: Experiment, env: Env, w: World, mark: nat)
    requires w.halt != Going
    ensures Checkpoint(system, e, env, w, mark) == w
  {
    SnapshotsStopped(system, env, w, |system.components|, mark);
  }

  // ---- Something unaligned reached ------------------------------------------------------------------------

  ghost predicate InjectsOnGrid(log: seq<Action>, q: nat)
    requires q > 0
  {
    forall i :: 0 <= i < |log| && log[i].Inject? ==> log[i].at % q == 0
  }

  lemma {:induction false} InjectAllOnGrid(system: System, env: Env, q: nat, w: World, origin: Origin, items: seq<(PortRef, Value)>, t: nat)
    requires q > 0 && t % q == 0 && InjectsOnGrid(w.trace, q)
    ensures InjectsOnGrid(InjectAll(system, env, w, origin, items, t).trace, q)
  {
    if items == [] {
    } else {
      InjectAllOnGrid(system, env, q, w, origin, items[..|items| - 1], t);
    }
  }

  lemma {:induction false} StepAllOnGrid(system: System, env: Env, q: nat, w: World, n: nat, t: nat)
    requires q > 0 && n <= |system.components| && InjectsOnGrid(w.trace, q)
    ensures InjectsOnGrid(StepAll(system, env, q, w, n, t).trace, q)
  {
    if n == 0 {
    } else {
      StepAllOnGrid(system, env, q, w, n - 1, t);
    }
  }

  lemma {:induction false} SnapshotAllOnGrid(system: System, env: Env, q: nat, w: World, n: nat, mark: nat)
    requires q > 0 && n <= |system.components| && InjectsOnGrid(w.trace, q)
    ensures InjectsOnGrid(SnapshotAll(system, env, w, n, mark).trace, q)
  {
    if n == 0 {
    } else {
      SnapshotAllOnGrid(system, env, q, w, n - 1, mark);
    }
  }

  lemma TickOnGrid(system: System, e: Experiment, env: Env, q: nat, w: World, t: nat)
    requires q > 0 && t % q == 0 && InjectsOnGrid(w.trace, q)
    ensures InjectsOnGrid(Tick(system, e, env, q, w, t).trace, q)
  {
    hide InjectAll, StepAll, SnapshotAll, InjectsOnGrid, TimelineAt, FaultTimeline;
    if w.halt == Going && env.interrupt(t) == NoInterrupt {
      var w0 := w.(pending := w.pending - {t});
      var w1 := InjectAll(system, env, w0, Delivered, QueuedAt(w.pending, t), t);
      var w2 := InjectAll(system, env, w1, Stimulated, TimelineAt(e.stimuli, t), t);
      InjectAllOnGrid(system, env, q, w0, Delivered, QueuedAt(w.pending, t), t);
      InjectAllOnGrid(system, env, q, w1, Stimulated, TimelineAt(e.stimuli, t), t);
      InjectAllOnGrid(system, env, q, w2, Faulted, TimelineAt(FaultTimeline(e.faults), t), t);
      StepAllOnGrid(system, env, q, BeforeSteps(system, e, env, w, t), |system.components|, t);
    }
    SnapshotAllOnGrid(system, env, q, TickBody(system, e, env, q, w, t), |system.components|, t + q);
  }

  lemma {:induction false} LoopOnGrid(system: System, e: Experiment, env: Env, q: nat, w: World, n: nat)
    requires q > 0 && InjectsOnGrid(w.trace, q)
    ensures InjectsOnGrid(Loop(system, e, env, q, w, n).trace, q)
  {
    hide Tick, InjectsOnGrid;
    if n == 0 {
    } else {
      LoopOnGrid(system, e, env, q, w, n - 1);
      GridStep(q, n);
      TickOnGrid(system, e, env, q, Loop(system, e, env, q, w, n - 1), (n - 1) * q);
    }
  }

  /** Some call injects at instant k. */
  ghost predicate InjectsAt(log: seq<Action>, k: nat)
  {
    exists i :: 0 <= i < |log| && log[i].Inject? && log[i].at == k
  }

  lemma StillInjects(system: System, earlier: seq<Action>, later: seq<Action>, k: nat)
    requires Extends(system, earlier, later) && InjectsAt(earlier, k)
    ensures InjectsAt(later, k)
  {
    var i :| 0 <= i < |earlier| && earlier[i].Inject? && earlier[i].at == k;
    assert later[i] == later[..|earlier|][i];
  }

  /** A batch of injections into known components makes at least the first of them. */
  lemma {:induction false} BatchInjects(system: System, env: Env, w: World, origin: Origin, items: seq<(PortRef, Value)>, t: nat)
    requires w.halt == Going && items != [] && items[0].0.component in Ids(system)
    ensures InjectsAt(InjectAll(system, env, w, origin, items, t).trace, t)
  {
    var front := items[..|items| - 1];
    if front == [] {
      var log := InjectAll(system, env, w, origin, items, t).trace;
      assert InjectAll(system, env, w, origin, [], t) == w;
      assert log[|log| - 1].Inject? && log[|log| - 1].at == t;
    } else {
      BatchInjects(system, env, w, origin, front, t);
      var before := InjectAll(system, env, w, origin, front, t);
      var after := InjectAll(system, env, w, origin, items, t);
      var i :| 0 <= i < |before.trace| && before.trace[i].Inject? && before.trace[i].at == t;
      assert after.trace[i] == before.trace[i];
    }
  }

  ghost predicate KnownTargets(system: System, items: seq<Timed>)
  {
    forall item <- items :: item.target.component in Ids(system)
  }

  lemma {:induction false} KnownAt(system: System, items: seq<Timed>, t: nat)
    requires KnownTargets(system, items)
    ensures forall i :: 0 <= i < |TimelineAt(items, t)| ==> TimelineAt(items, t)[i].0.component in Ids(system)
  {
    hide Ids;
    if items == [] {
    } else {
      var front := items[..|items| - 1];
      assert forall item <- front :: item in items;
      KnownAt(system, front, t);
      assert items[|items| - 1] in items;
    }
  }

  /** The one instant of a microsecond loop at which only the timeline can act. */
  lemma UnalignedTickInjects(system: System, e: Experiment, env: Env, w: World, k: nat)
    requires w.halt == Going && env.interrupt(k) == NoInterrupt && k !in w.pending
    requires KnownTargets(system, e.stimuli) && KnownTargets(system, FaultTimeline(e.faults))
    requires TimelineAt(e.stimuli, k) != [] || TimelineAt(FaultTimeline(e.faults), k) != []
    ensures InjectsAt(Tick(system, e, env, 1, w, k).trace, k)
  {
    hide StepAll, SnapshotAll, TimelineAt, FaultTimeline, InjectsAt, KnownTargets, Ids, Extends;
    var w0 := w.(pending := w.pending - {k});
    var w1 := InjectAll(system, env, w0, Delivered, QueuedAt(w.pending, k), k);
    assert w1 == w0;
    var w2 := InjectAll(system, env, w1, Stimulated, TimelineAt(e.stimuli, k), k);
    var w3 := InjectAll(system, env, w2, Faulted, TimelineAt(FaultTimeline(e.faults), k), k);
    hide InjectAll;
    KnownAt(system, e.stimuli, k);
    KnownAt(system, FaultTimeline(e.faults), k);
    if TimelineAt(e.stimuli, k) != [] {
      BatchInjects(system, env, w1, Stimulated, TimelineAt(e.stimuli, k), k);
      InjectAllExtends(system, env, w2, Faulted, TimelineAt(FaultTimeline(e.faults), k), k);
      StillInjects(system, w2.trace, w3.trace, k);
    } else {
      NoBatch(system, env, w1, Stimulated, k);
      BatchInjects(system, env, w2, Faulted, TimelineAt(FaultTimeline(e.faults), k), k);
    }
    var body := TickBody(system, e, env, 1, w, k);
    StepAllExtends(system, env, 1, w3, |system.components|, k);
    StillInjects(system, w3.trace, body.trace, k);
    SnapshotAllExtends(system, env, body, |system.components|, k + 1);
    if Tick(system, e, env, 1, w, k) != body {
      StillInjects(system, body.trace, SnapshotAll(system, env, body, |system.components|, k + 1).trace, k);
    }
  }

  lemma NoBatch(system: System, env: Env, w: World, origin: Origin, t: nat)
    ensures InjectAll(system, env, w, origin, [], t) == w
  {
  }

  lemma {:induction false} LoopTraceGrows(system: System, e: Experiment, env: Env, q: nat, w: World, i: nat, j: nat)
    requires q > 0 && i <= j
    ensures Extends(system, Loop(system, e, env, q, w, i).trace, Loop(system, e, env, q, w, j).trace)
  {
    hide Tick;
    if i == j {
    } else {
      LoopTraceGrows(system, e, env, q, w, i, j - 1);
      TickExtends(system, e, env, q, Loop(system, e, env, q, w, j - 1), (j - 1) * q);
      ExtendsTransitive(system, Loop(system, e, env, q, w, i).trace, Loop(system, e, env, q, w, j - 1).trace, Loop(system, e, env, q, w, j).trace);
    }
  }

  /** No delivery of a microsecond loop is ever keyed off the grid of the periods. */
  lemma {:induction false} MicrosecondQueueAligned(system: System, e: Experiment, env: Env, q: nat, trace: seq<Action>, n: nat)
    requires TickFits(q, e.macroStepUs, system.components) && AllPeriodic(system.components)
    ensures forall k <- Loop(system, e, env, 1, StartWorld(trace), n).pending :: k % q == 0
  {
    hide Tick;
    if n == 0 {
    } else {
      var w := Loop(system, e, env, 1, StartWorld(trace), n - 1);
      MicrosecondQueueAligned(system, e, env, q, trace, n - 1);
      if (n - 1) % q == 0 {
        TickPending(system, e, env, 1, q, w, n - 1);
      } else {
        OffGridQueue(system, e, env, q, w, n - 1);
      }
      assert (n - 1) * 1 == n - 1;
    }
  }

  /** A tick off the grid steps nothing, so it queues nothing. */
  lemma OffGridQueue(system: System, e: Experiment, env: Env, q: nat, w: World, t: nat)
    requires TickFits(q, e.macroStepUs, system.components) && AllPeriodic(system.components) && t % q != 0
    requires forall k <- w.pending :: k % q == 0
    ensures forall k <- Tick(system, e, env, 1, w, t).pending :: k % q == 0
  {
    hide InjectAll, StepAll, SnapshotAll, TimelineAt, FaultTimeline, AllPeriodic;
    var w0 := w.(pending := w.pending - {t});
    var w1 := InjectAll(system, env, w0, Delivered, QueuedAt(w.pending, t), t);
    var w2 := InjectAll(system, env, w1, Stimulated, TimelineAt(e.stimuli, t), t);
    InjectAllPending(system, env, w0, Delivered, QueuedAt(w.pending, t), t);
    InjectAllPending(system, env, w1, Stimulated, TimelineAt(e.stimuli, t), t);
    InjectAllPending(system, env, w2, Faulted, TimelineAt(FaultTimeline(e.faults), t), t);
    NothingDueOffGrid(system, env, q, BeforeSteps(system, e, env, w, t), |system.components|, t);
    SnapshotAllPending(system, env, TickBody(system, e, env, 1, w, t), |system.components|, t + 1);
  }

  // ---- Whole runs --------------------------------------------------------------------------------------------

  ghost predicate Unaligned(e: Experiment, q: nat, end: nat, item: Timed)
    requires q > 0
  {
    (item in e.stimuli || item in FaultTimeline(e.faults)) && item.atUs < end && item.atUs % q != 0
  }

  /** The loop that ticks every microsecond is still going when an item is due. */
  ghost predicate Reaches(system: System, e: Experiment, env: Env, trace: seq<Action>, item: Timed)
  {
    Loop(system, e, env, 1, StartWorld(trace), item.atUs).halt == Going
  }

  lemma UnalignedIsDue(e: Experiment, q: nat, end: nat, item: Timed)
    requires q > 0 && Unaligned(e, q, end, item)
    ensures item.atUs < end && item.atUs % q != 0
    ensures TimelineAt(e.stimuli, item.atUs) != [] || TimelineAt(FaultTimeline(e.faults), item.atUs) != []
  {
    hide TimelineAt, FaultTimeline;
    if item in e.stimuli {
      TimelineHolds(e.stimuli, item);
    } else {
      TimelineHolds(FaultTimeline(e.faults), item);
    }
  }

  lemma ReachesMeans(system: System, e: Experiment, env: Env, trace: seq<Action>, item: Timed)
    requires Reaches(system, e, env, trace, item)
    ensures Loop(system, e, env, 1, StartWorld(trace), item.atUs).halt == Going
  {
    hide Loop;
  }

  lemma ReachedItemShows(system: System, e: Experiment, env: Env, q: nat, end: nat, trace: seq<Action>, item: Timed)
    requires TickFits(q, e.macroStepUs, system.components) && AllPeriodic(system.components)
    requires Unaligned(e, q, end, item) && Reaches(system, e, env, trace, item) && env.interrupt(item.atUs) == NoInterrupt
    requires KnownTargets(system, e.stimuli) && KnownTargets(system, FaultTimeline(e.faults))
    ensures InjectsAt(Loop(system, e, env, 1, StartWorld(trace), end).trace, item.atUs)
  {
    hide *;
    var k, w0 := item.atUs, StartWorld(trace);
    var w := Loop(system, e, env, 1, w0, k);
    FitsPositive(q, e.macroStepUs, system.components);
    ReachesMeans(system, e, env, trace, item);
    UnalignedIsDue(e, q, end, item);
    MicrosecondQueueAligned(system, e, env, q, trace, k);
    UnalignedTickInjects(system, e, env, w, k);
    MicrosecondTick(system, e, env, w0, k);
    LoopTraceGrows(system, e, env, 1, w0, k + 1, end);
    StillInjects(system, Loop(system, e, env, 1, w0, k + 1).trace, Loop(system, e, env, 1, w0, end).trace, k);
  }

  /** The microsecond loop reaches no cancellation and no timeout off the grid. */
  ghost predicate Undisturbed(system: System, e: Experiment, env: Env, q: nat, end: nat, trace: seq<Action>)
    requires q > 0
  {
    forall t: nat :: t < end && t % q != 0 && Loop(system, e, env, 1, StartWorld(trace), t).halt == Going ==> env.interrupt(t) == NoInterrupt
  }

  ghost predicate NothingReached(system: System, e: Experiment, env: Env, q: nat, end: nat, trace: seq<Action>)
    requires q > 0
  {
    forall item :: Unaligned(e, q, end, item) ==> !Reaches(system, e, env, trace, item)
  }

  /** While the microsecond loop is going, everything that it meets is on the grid. */
  lemma FineWhileGoing(system: System, e: Experiment, env: Env, q: nat, end: nat, trace: seq<Action>, h: nat)
    requires ValidExperiment(e) && TickFits(q, e.macroStepUs, system.components) && AllPeriodic(system.components) && h <= end
    requires Undisturbed(system, e, env, q, end, trace) && NothingReached(system, e, env, q, end, trace)
    requires forall m: nat :: m < h ==> Loop(system, e, env, 1, StartWorld(trace), m).halt == Going
    ensures Fine(system, e, env, q, h)
  {
    hide Loop, FaultTimeline;
    if e.checkpointUs.Some? {
      DividesTransitive(q, e.macroStepUs, e.checkpointUs.value);
    }
    forall other | (other in e.stimuli || other in FaultTimeline(e.faults)) && other.atUs < h
      ensures other.atUs % q == 0
    {
      assert Reaches(system, e, env, trace, other);
      assert Unaligned(e, q, end, other) <==> other.atUs % q != 0;
    }
  }

  lemma {:induction false} GoingBeforeIt(system: System, e: Experiment, env: Env, w: World, m: nat, n: nat)
    requires m <= n && Loop(system, e, env, 1, w, n).halt == Going
    ensures Loop(system, e, env, 1, w, m).halt == Going
  {
    if Loop(system, e, env, 1, w, m).halt != Going {
      StoppedLoop(system, e, env, 1, w, m, n);
    }
  }

  lemma PeriodicRunsAgree(system: System, e: Experiment, env: Env, q: nat, trace: seq<Action>, n: nat)
    requires ValidExperiment(e) && TickFits(q, e.macroStepUs, system.components) && AllPeriodic(system.components)
    requires n * q == e.durationUs
    requires Undisturbed(system, e, env, q, e.durationUs, trace) && NothingReached(system, e, env, q, e.durationUs, trace)
    ensures Loop(system, e, env, q, StartWorld(trace), n) == Loop(system, e, env, 1, StartWorld(trace), e.durationUs)
  {
    hide Tick, FaultTimeline, Loop, Undisturbed, NothingReached, AllPeriodic, TickFits;
    var w0, end := StartWorld(trace), e.durationUs;
    FitsPositive(q, e.macroStepUs, system.components);
    if Loop(system, e, env, 1, w0, end).halt == Going {
      forall m: nat | m < end
        ensures Loop(system, e, env, 1, w0, m).halt == Going
      {
        GoingBeforeIt(system, e, env, w0, m, end);
      }
      FineWhileGoing(system, e, env, q, end, trace, end);
      GcdTickingIsLossless(system, e, env, q, end, trace, n);
    } else {
      var h := FirstStop(system, e, env, w0, end);
      FineWhileGoing(system, e, env, q, end, trace, h);
      SameStop(system, e, env, q, h, trace);
      StopBefore(h, q, n);
      StoppedLoop(system, e, env, q, w0, (h + q - 1) / q, n);
      StoppedLoop(system, e, env, 1, w0, h, end);
    }
  }

  lemma StopBefore(h: nat, q: nat, n: nat)
    requires q > 0 && h <= n * q
    ensures (h + q - 1) / q <= n
  {
    var m := (h + q - 1) / q;
    assert h + q - 1 == q * m + (h + q - 1) % q;
    assert q * (m - n) == q * m - n * q;
    ProductBounds(q, m - n);
  }

  lemma CloseInjects(log: seq<Action>, metrics: map<PortRef, Value>, status: RunStatus, salvage: bool, k: nat)
    ensures InjectsAt(Close(log, metrics, status, salvage).trace, k) <==> InjectsAt(log, k)
  {
    hide Held;
    var all := Close(log, metrics, status, salvage).trace;
    CloseShape(log, metrics, status, salvage);
    if InjectsAt(log, k) {
      var i :| 0 <= i < |log| && log[i].Inject? && log[i].at == k;
      assert all[i] == log[i];
    }
    if InjectsAt(all, k) {
      var i :| 0 <= i < |all| && all[i].Inject? && all[i].at == k;
      assert i < |log| && log[i] == all[i];
    }
  }

  lemma EndingInjects(e: Experiment, env: Env, w: World, k: nat)
    ensures InjectsAt(Ending(e, env, w).trace, k) <==> InjectsAt(w.trace, k)
  {
    hide InjectsAt, Close, Judge;
    CloseInjects(w.trace, w.metrics, CANCELLED, false, k);
    CloseInjects(w.trace, w.metrics, FAILED, true, k);
    CloseInjects(w.trace, w.metrics, PASSED, false, k);
    CloseInjects(w.trace, w.metrics, FAILED, false, k);
  }

  lemma OnGridInjectsNotOff(log: seq<Action>, q: nat, k: nat)
    requires q > 0 && InjectsOnGrid(log, q) && k % q != 0
    ensures !InjectsAt(log, k)
  {
  }

  // ---- Components without a period -------------------------------------------------------------------------

  /** Some component without a period is stepped. */
  ghost predicate StepsAperiodic(system: System, log: seq<Action>)
  {
    exists i, c :: 0 <= i < |log| && c in system.components && c.stepUs.None? && log[i].Step? && log[i].id == c.id
  }

  /** All steps of a component without a period span the tick. */
  ghost predicate SpansTick(system: System, log: seq<Action>, q: nat)
  {
    forall i, c :: 0 <= i < |log| && c in system.components && c.stepUs.None? && log[i].Step? && log[i].id == c.id ==> log[i].span == q
  }

  lemma {:induction false} InjectAllSpans(system: System, env: Env, q: nat, w: World, origin: Origin, items: seq<(PortRef, Value)>, t: nat)
    requires SpansTick(system, w.trace, q)
    ensures SpansTick(system, InjectAll(system, env, w, origin, items, t).trace, q)
  {
    if items == [] {
    } else {
      InjectAllSpans(system, env, q, w, origin, items[..|items| - 1], t);
    }
  }

  lemma OnePeriodEach(system: System, q: nat, j: nat, c: Component)
    requires ValidSystem(system) && j < |system.components| && c in system.components && c.stepUs.None? && system.components[j].id == c.id
    ensures Period(system.components[j], q) == q
  {
    var i :| 0 <= i < |system.components| && system.components[i] == c;
    assert i == j;
  }

  lemma {:induction false} StepAllSpans(system: System, env: Env, q: nat, w: World, n: nat, t: nat)
    requires ValidSystem(system) && q > 0 && n <= |system.components| && SpansTick(system, w.trace, q)
    ensures SpansTick(system, StepAll(system, env, q, w, n, t).trace, q)
  {
    hide ValidSystem, Period, Record, Acceptable, Enqueue;
    if n == 0 {
    } else {
      StepAllSpans(system, env, q, w, n - 1, t);
      forall c | c in system.components && c.stepUs.None? && system.components[n - 1].id == c.id
        ensures Period(system.components[n - 1], q) == q
      {
        OnePeriodEach(system, q, n - 1, c);
      }
    }
  }

  lemma {:induction false} SnapshotAllSpans(system: System, env: Env, q: nat, w: World, n: nat, mark: nat)
    requires n <= |system.components| && SpansTick(system, w.trace, q)
    ensures SpansTick(system, SnapshotAll(system, env, w, n, mark).trace, q)
  {
    if n == 0 {
    } else {
      SnapshotAllSpans(system, env, q, w, n - 1, mark);
    }
  }

  lemma TickSpans(system: System, e: Experiment, env: Env, q: nat, w: World, t: nat)
    requires ValidSystem(system) && q > 0 && SpansTick(system, w.trace, q)
    ensures SpansTick(system, Tick(system, e, env, q, w, t).trace, q)
  {
    hide InjectAll, StepAll, SnapshotAll, SpansTick, TimelineAt, FaultTimeline, ValidSystem;
    if w.halt == Going && env.interrupt(t) == NoInterrupt {
      var w0 := w.(pending := w.pending - {t});
      var w1 := InjectAll(system, env, w0, Delivered, QueuedAt(w.pending, t), t);
      var w2 := InjectAll(system, env, w1, Stimulated, TimelineAt(e.stimuli, t), t);
      InjectAllSpans(system, env, q, w0, Delivered, QueuedAt(w.pending, t), t);
      InjectAllSpans(system, env, q, w1, Stimulated, TimelineAt(e.stimuli, t), t);
      InjectAllSpans(system, env, q, w2, Faulted, TimelineAt(FaultTimeline(e.faults), t), t);
      StepAllSpans(system, env, q, BeforeSteps(system, e, env, w, t), |system.components|, t);
    }
    SnapshotAllSpans(system, env, q, TickBody(system, e, env, q, w, t), |system.components|, t + q);
  }

  lemma {:induction false} LoopSpans(system: System, e: Experiment, env: Env, q: nat, w: World, n: nat)
    requires ValidSystem(system) && q > 0 && SpansTick(system, w.trace, q)
    ensures SpansTick(system, Loop(system, e, env, q, w, n).trace, q)
  {
    hide Tick, SpansTick, ValidSystem;
    if n == 0 {
    } else {
      LoopSpans(system, e, env, q, w, n - 1);
      TickSpans(system, e, env, q, Loop(system, e, env, q, w, n - 1), (n - 1) * q);
    }
  }

  lemma CloseStepsNothing(system: System, log: seq<Action>, metrics: map<PortRef, Value>, status: RunStatus, salvage: bool, q: nat)
    ensures StepsAperiodic(system, Close(log, metrics, status, salvage).trace) <==> StepsAperiodic(system, log)
    ensures SpansTick(system, Close(log, metrics, status, salvage).trace, q) <==> SpansTick(system, log, q)
  {
    hide Held, Close;
    var all := Close(log, metrics, status, salvage).trace;
    CloseShape(log, metrics, status, salvage);
    forall i | 0 <= i < |log|
      ensures log[i] == all[i]
    {
    }
    forall i | 0 <= i < |all| && all[i].Step?
      ensures i < |log| && log[i] == all[i]
    {
    }
  }

  lemma EndingStepsNothing(system: System, e: Experiment, env: Env, w: World, q: nat)
    ensures StepsAperiodic(system, Ending(e, env, w).trace) <==> StepsAperiodic(system, w.trace)
    ensures SpansTick(system, Ending(e, env, w).trace, q) <==> SpansTick(system, w.trace, q)
  {
    hide StepsAperiodic, SpansTick, Close, Judge;
    CloseStepsNothing(system, w.trace, w.metrics, CANCELLED, false, q);
    CloseStepsNothing(system, w.trace, w.metrics, FAILED, true, q);
    CloseStepsNothing(system, w.trace, w.metrics, PASSED, false, q);
    CloseStepsNothing(system, w.trace, w.metrics, FAILED, false, q);
  }

  lemma TwoSpans(system: System, log: seq<Action>, q: nat)
    requires q != 1 && StepsAperiodic(system, log) && SpansTick(system, log, 1)
    ensures !SpansTick(system, log, q)
  {
  }

  /** When the microsecond loop steps a component without a period, the two runs differ. */
  lemma AperiodicRunsDiffer(system: System, e: Experiment, env: Env, q: nat, trace: seq<Action>, n: nat, end: nat)
    requires ValidSystem(system) && q > 1 && (forall i :: 0 <= i < |trace| ==> trace[i].Prepare?)
    requires StepsAperiodic(system, Loop(system, e, env, 1, StartWorld(trace), end).trace)
    ensures Ending(e, env, Loop(system, e, env, q, StartWorld(trace), n)) != Ending(e, env, Loop(system, e, env, 1, StartWorld(trace), end))
  {
    hide Loop, Ending, StepsAperiodic, ValidSystem;
    var w, w' := Loop(system, e, env, q, StartWorld(trace), n), Loop(system, e, env, 1, StartWorld(trace), end);
    LoopSpans(system, e, env, q, StartWorld(trace), n);
    LoopSpans(system, e, env, 1, StartWorld(trace), end);
    hide SpansTick;
    EndingStepsNothing(system, e, env, w, q);
    EndingStepsNothing(system, e, env, w', q);
    EndingStepsNothing(system, e, env, w', 1);
    TwoSpans(system, Ending(e, env, w').trace, q);
  }

  lemma {:induction false} StepsStopped(system: System, env: Env, q: nat, w: World, i: nat, n: nat, t: nat)
    requires q > 0 && i <= n <= |system.components| && StepAll(system, env, q, w, i, t).halt != Going
    ensures StepAll(system, env, q, w, n, t) == StepAll(system, env, q, w, i, t)
  {
    if i == n {
    } else {
      StepsStopped(system, env, q, w, i, n - 1, t);
    }
  }

  lemma {:induction false} SameStepsBefore(system: System, env: Env, q: nat, w: World, n: nat, t: nat)
    requires q > 0 && n <= |system.components|
    requires forall j :: 0 <= j < n ==> system.components[j].stepUs.Some? && system.components[j].stepUs.value > 0
    ensures StepAll(system, env, 1, w, n, t) == StepAll(system, env, q, w, n, t)
  {
    if n == 0 {
    } else {
      SameStepsBefore(system, env, q, w, n - 1, t);
    }
  }

  lemma {:induction false} FirstAperiodic(system: System, n: nat) returns (i: nat)
    requires ValidSystem(system) && n <= |system.components|
    requires exists j :: 0 <= j < n && system.components[j].stepUs.None?
    ensures i < n && system.components[i].stepUs.None?
    ensures forall j :: 0 <= j < i ==> system.components[j].stepUs.Some? && system.components[j].stepUs.value > 0
  {
    if exists j :: 0 <= j < n - 1 && system.components[j].stepUs.None? {
      i := FirstAperiodic(system, n - 1);
    } else {
      i := n - 1;
      forall j | 0 <= j < i
        ensures system.components[j].stepUs.Some? && system.components[j].stepUs.value > 0
      {
        assert system.components[j] in system.components;
      }
    }
  }

  lemma StepsShow(system: System, earlier: seq<Action>, later: seq<Action>)
    requires Extends(system, earlier, later) && StepsAperiodic(system, earlier)
    ensures StepsAperiodic(system, later)
  {
    var i, c :| 0 <= i < |earlier| && c in system.components && c.stepUs.None? && earlier[i].Step? && earlier[i].id == c.id;
    assert later[i] == later[..|earlier|][i];
  }

  lemma {:induction false} StepAllGrows(system: System, env: Env, q: nat, w: World, i: nat, n: nat, t: nat)
    requires q > 0 && i <= n <= |system.components|
    ensures Extends(system, StepAll(system, env, q, w, i, t).trace, StepAll(system, env, q, w, n, t).trace)
  {
    if i == n {
    } else {
      StepAllGrows(system, env, q, w, i, n - 1, t);
      assert system.components[n - 1].id in Ids(system);
    }
  }

  /** At the first instant every component is due, so one without a period is stepped unless the tick stopped before it. */
  lemma FirstTickSteps(system: System, env: Env, w: World, i: nat)
    requires i < |system.components| && system.components[i].stepUs.None? && StepAll(system, env, 1, w, i, 0).halt == Going
    ensures StepsAperiodic(system, StepAll(system, env, 1, w, |system.components|, 0).trace)
  {
    hide Extends, Acceptable, Record, Enqueue;
    var log := StepAll(system, env, 1, w, i + 1, 0).trace;
    assert log[|log| - 1].Step? && log[|log| - 1].id == system.components[i].id;
    assert StepsAperiodic(system, log);
    StepAllGrows(system, env, 1, w, i + 1, |system.components|, 0);
    StepsShow(system, log, StepAll(system, env, 1, w, |system.components|, 0).trace);
  }

  lemma StoppedFirstBody(system: System, e: Experiment, env: Env, q: nat, w: World, i: nat)
    requires q > 0 && i < |system.components| && system.components[i].stepUs.None? && w.halt == Going
    requires forall j :: 0 <= j < i ==> system.components[j].stepUs.Some? && system.components[j].stepUs.value > 0
    requires !StepsAperiodic(system, TickBody(system, e, env, 1, w, 0).trace)
    ensures TickBody(system, e, env, q, w, 0) == TickBody(system, e, env, 1, w, 0) && TickBody(system, e, env, 1, w, 0).halt != Going
  {
    hide StepAll, BeforeSteps, StepsAperiodic;
    if env.interrupt(0) == NoInterrupt {
      var w3 := BeforeSteps(system, e, env, w, 0);
      if StepAll(system, env, 1, w3, i, 0).halt == Going {
        FirstTickSteps(system, env, w3, i);
      } else {
        SameStepsBefore(system, env, q, w3, i, 0);
        StepsStopped(system, env, 1, w3, i, |system.components|, 0);
        StepsStopped(system, env, q, w3, i, |system.components|, 0);
      }
    }
  }

  /** When it steps none, both runs stopped in the first tick, in the same world. */
  lemma AperiodicRunsStop(system: System, e: Experiment, env: Env, q: nat, trace: seq<Action>, n: nat, end: nat)
    requires ValidSystem(system) && !AllPeriodic(system.components) && q > 0 && n > 0 && end > 0
    requires !StepsAperiodic(system, Loop(system, e, env, 1, StartWorld(trace), end).trace)
    ensures Loop(system, e, env, q, StartWorld(trace), n) == Loop(system, e, env, 1, StartWorld(trace), end)
  {
    var c :| c in system.components && !(c.stepUs.Some? && c.stepUs.value > 0);
    var j :| 0 <= j < |system.components| && system.components[j] == c;
    var i := FirstAperiodic(system, |system.components|);
    hide *;
    var w0 := StartWorld(trace);
    GoingAtFirst(trace);
    NoTicks(system, e, env, q, w0);
    NoTicks(system, e, env, 1, w0);
    LastOfTicks(system, e, env, q, w0, 1);
    LastOfTicks(system, e, env, 1, w0, 1);
    assert (1 - 1) * q == 0;
    TickIs(system, e, env, q, w0, 0);
    TickIs(system, e, env, 1, w0, 0);
    var body := TickBody(system, e, env, 1, w0, 0);
    if StepsAperiodic(system, body.trace) {
      CheckpointGrows(system, e, env, body, 1);
      StepsShow(system, body.trace, Tick(system, e, env, 1, w0, 0).trace);
      LoopTraceGrows(system, e, env, 1, w0, 1, end);
      StepsShow(system, Tick(system, e, env, 1, w0, 0).trace, Loop(system, e, env, 1, w0, end).trace);
    } else {
      StoppedFirstBody(system, e, env, q, w0, i);
      StoppedCheckpoint(system, e, env, body, 0 + q);
      StoppedCheckpoint(system, e, env, body, 0 + 1);
      StoppedLoop(system, e, env, q, w0, 1, n);
      StoppedLoop(system, e, env, 1, w0, 1, end);
    }
  }

  lemma GoingAtFirst(trace: seq<Action>)
    ensures StartWorld(trace).halt == Going
  {
  }

  lemma CheckpointGrows(system: System, e: Experiment, env: Env, w: World, mark: nat)
    ensures Extends(system, w.trace, Checkpoint(system, e, env, w, mark).trace)
  {
    SnapshotAllExtends(system, env, w, |system.components|, mark);
  }

  // ---- The theorem ---------------------------------------------------------------------------------------------

  /** Nothing in the microsecond run tells it from the run at the quantum: no item off the grid, no step as long as the tick. */
  ghost predicate Indistinct(system: System, e: Experiment, env: Env, q: nat, trace: seq<Action>)
    requires q > 0
  {
    if AllPeriodic(system.components) then NothingReached(system, e, env, q, e.durationUs, trace)
    else q == 1 || !StepsAperiodic(system, Loop(system, e, env, 1, StartWorld(trace), e.durationUs).trace)
  }

  /**
    However the runs end - passed, failed, cancelled or timed out - ticking at the quantum and ticking
    every microsecond have the same outcome if and only if the microsecond loop reaches no stimulus or
    fault that is off the grid and, unless the quantum is a microsecond, steps no component without a
    period. A run that is blocked or fails in preparation reaches nothing. Interruptions off the grid
    that the microsecond loop would meet are excluded.
   */
  lemma RunsAgreeExactly(system: System, e: Experiment, env: Env)
    requires ValidSystem(system) && ValidExperiment(e)
    requires Undisturbed(system, e, env, Quantum(system, e), e.durationUs, PrepareUpTo(system, env, |system.components|).trace)
    requires KnownTargets(system, e.stimuli) && KnownTargets(system, FaultTimeline(e.faults))
    ensures var prepared := PrepareUpTo(system, env, |system.components|);
            RunSpec(system, e, env) == RunAt(system, e, env, 1) <==>
              (prepared.readiness == Ready ==> Indistinct(system, e, env, Quantum(system, e), prepared.trace))
  {
    hide Loop, PrepareUpTo, Close, Ending, KnownTargets, Undisturbed, Indistinct, FaultTimeline, Quantum, ValidSystem;
    var q, end := Quantum(system, e), e.durationUs;
    var prepared := PrepareUpTo(system, env, |system.components|);
    if prepared.readiness == Ready {
      var trace := prepared.trace;
      var n := TickCount(end, q);
      QuantumIsLongestFit(system, e);
      PreparedRunsAgree(system, e, env, q, trace, n) by {
        DividesTransitive(q, e.macroStepUs, end);
        TickCountExact(end, q);
        PrepareShape(system, env, |system.components|);
      }
      assert TickCount(end, 1) == end;
      assert RunSpec(system, e, env) == Ending(e, env, Loop(system, e, env, q, StartWorld(trace), n));
      assert RunAt(system, e, env, 1) == Ending(e, env, Loop(system, e, env, 1, StartWorld(trace), end));
    }
  }

  lemma PreparedRunsAgree(system: System, e: Experiment, env: Env, q: nat, trace: seq<Action>, n: nat)
    requires ValidSystem(system) && ValidExperiment(e) && TickFits(q, e.macroStepUs, system.components) && n * q == e.durationUs
    requires q > 0 && Undisturbed(system, e, env, q, e.durationUs, trace)
    requires KnownTargets(system, e.stimuli) && KnownTargets(system, FaultTimeline(e.faults))
    requires forall i :: 0 <= i < |trace| ==> trace[i].Prepare?
    ensures Ending(e, env, Loop(system, e, env, q, StartWorld(trace), n)) == Ending(e, env, Loop(system, e, env, 1, StartWorld(trace), e.durationUs))
       <==> Indistinct(system, e, env, q, trace)
  {
    hide Loop, KnownTargets, FaultTimeline, Ending, StepsAperiodic, NothingReached, Undisturbed, AllPeriodic, ValidSystem, TickFits;
    var end := e.durationUs;
    if AllPeriodic(system.components) {
      if NothingReached(system, e, env, q, end, trace) {
        PeriodicRunsAgree(system, e, env, q, trace, n);
      } else {
        ReachedRunsDiffer(system, e, env, q, trace, n);
      }
    } else if q == 1 {
      assert n == end;
    } else if StepsAperiodic(system, Loop(system, e, env, 1, StartWorld(trace), end).trace) {
      AperiodicRunsDiffer(system, e, env, q, trace, n, end);
    } else {
      AperiodicRunsStop(system, e, env, q, trace, n, end);
    }
  }

  lemma ReachedRunsDiffer(system: System, e: Experiment, env: Env, q: nat, trace: seq<Action>, n: nat)
    requires TickFits(q, e.macroStepUs, system.components) && AllPeriodic(system.components) && q > 0
    requires Undisturbed(system, e, env, q, e.durationUs, trace) && !NothingReached(system, e, env, q, e.durationUs, trace)
    requires KnownTargets(system, e.stimuli) && KnownTargets(system, FaultTimeline(e.faults))
    requires forall i :: 0 <= i < |trace| ==> trace[i].Prepare?
    ensures Ending(e, env, Loop(system, e, env, q, StartWorld(trace), n)) != Ending(e, env, Loop(system, e, env, 1, StartWorld(trace), e.durationUs))
  {
    hide Loop, KnownTargets, InjectsAt, FaultTimeline, Ending, AllPeriodic, TickFits;
    var end := e.durationUs;
    var item :| Unaligned(e, q, end, item) && Reaches(system, e, env, trace, item);
    var w, w' := Loop(system, e, env, q, StartWorld(trace), n), Loop(system, e, env, 1, StartWorld(trace), end);
    ReachedItemShows(system, e, env, q, end, trace, item);
    LoopOnGrid(system, e, env, q, StartWorld(trace), n);
    OnGridInjectsNotOff(w.trace, q, item.atUs);
    EndingInjects(e, env, w, item.atUs);
    EndingInjects(e, env, w', item.atUs);
  }
}
