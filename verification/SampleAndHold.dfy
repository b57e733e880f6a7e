// What a port that is fed by one connection sees: the value its source computed one period ago,
// held until the next one.
module SampleAndHold {
  import opened Common
  import opened Divisibility
  import opened SchedulerItems
  import opened SchedulerModel
  import opened SchedulerQuantum
  import opened SchedulerTiming
  import opened SchedulerTheorems

  /** The values injected into one port at instant k, whatever their origin. */
  function Received(port: PortRef, k: nat): Action -> seq<Value>
  {
    (a: Action) => if a.Inject? && a.target == port && a.at == k then [a.value] else []
  }

  function Into(port: PortRef): ((PortRef, Value)) -> seq<Value>
  {
    (item: (PortRef, Value)) => if item.0 == port then [item.1] else []
  }

  /** What the step of a component that started at the given instant put on one of its ports. */
  function Emitted(source: PortRef, at: int): Action -> seq<Value>
  {
    (a: Action) => if a.Step? && a.id == source.component && a.at == at && Acceptable(a.result)
                   then Project(Named(source.port), a.result.value.outputs) else []
  }

  /** Connection i is the only way a value gets into its target: no other connection, stimulus or fault. */
  ghost predicate OnlyFeed(system: System, e: Experiment, i: nat)
  {
    && i < |system.connections|
    && (forall j :: 0 <= j < |system.connections| && j != i ==> system.connections[j].target != system.connections[i].target)
    && (forall s <- e.stimuli :: s.target != system.connections[i].target)
    && (forall s <- FaultTimeline(e.faults) :: s.target != system.connections[i].target)
  }

  lemma {:induction false} TimelineMember(items: seq<Timed>, t: nat, x: (PortRef, Value))
    requires x in TimelineAt(items, t)
    ensures exists item <- items :: item.target == x.0
  {
    var front, last := items[..|items| - 1], items[|items| - 1];
    if x in TimelineAt(front, t) {
      TimelineMember(front, t, x);
      var item :| item in front && item.target == x.0;
      assert item in items;
    } else {
      assert last in items;
    }
  }

  lemma {:induction false} OnlyTargetOf(connections: seq<Connection>, i: nat, n: nat, source: PortRef, v: Value)
    requires i < |connections| && n <= |connections|
    requires forall j :: 0 <= j < |connections| && j != i ==> connections[j].target != connections[i].target
    ensures Project(Into(connections[i].target), Fan(TargetsOf(connections[..n], source), v))
         == if i < n && connections[i].source == source then [v] else []
  {
    hide Fan, Into, Project;
    var target := connections[i].target;
    if n == 0 {
      ProjectNothing(Into(target), Fan([], v));
    } else {
      OnlyTargetOf(connections, i, n - 1, source, v);
      assert connections[..n][..n - 1] == connections[..n - 1];
      var last := connections[n - 1];
      if last.source == source {
        FanOneMore(TargetsOf(connections[..n - 1], source), last.target, v, target);
      }
    }
  }

  lemma FanOneMore(targets: seq<PortRef>, more: PortRef, v: Value, port: PortRef)
    ensures Project(Into(port), Fan(targets + [more], v)) == Project(Into(port), Fan(targets, v)) + (if more == port then [v] else [])
  {
    hide Project;
    assert Fan(targets + [more], v) == Fan(targets, v) + [(more, v)];
    ProjectConcat(Into(port), Fan(targets, v), [(more, v)]);
    ProjectOne(Into(port), (more, v));
  }

  /** Of the deliveries a step causes, the port gets exactly what its source port put out. */
  lemma {:induction false} DeliveriesInto(connections: seq<Connection>, i: nat, id: string, outputs: seq<(string, Value)>)
    requires i < |connections|
    requires forall j :: 0 <= j < |connections| && j != i ==> connections[j].target != connections[i].target
    ensures var c := connections[i];
            Project(Into(c.target), Deliveries(connections, id, outputs))
            == if c.source.component == id then Project(Named(c.source.port), outputs) else []
  {
    var c := connections[i];
    if outputs == [] {
    } else {
      var front, last := outputs[..|outputs| - 1], outputs[|outputs| - 1];
      DeliveriesInto(connections, i, id, front);
      var fan := Fan(TargetsOf(connections, PortRef(id, last.0)), last.1);
      ProjectConcat(Into(c.target), Deliveries(connections, id, front), fan);
      assert connections[..|connections|] == connections;
      OnlyTargetOf(connections, i, |connections|, PortRef(id, last.0), last.1);
    }
  }

  /** In a log without foreign injections into the port, what it receives is the deliveries into it. */
  lemma {:induction false} ReceivedIsDelivered(port: PortRef, k: nat, log: seq<Action>)
    requires forall i :: 0 <= i < |log| && log[i].Inject? && log[i].target == port ==> log[i].origin == Delivered
    ensures Project(Received(port, k), log) == Project(Into(port), Project(Injected(Delivered, k), log))
  {
    if log == [] {
    } else {
      var front, last := log[..|log| - 1], log[|log| - 1];
      ReceivedIsDelivered(port, k, front);
      ProjectConcat(Into(port), Project(Injected(Delivered, k), front), Injected(Delivered, k)(last));
      if last.Inject? && last.origin == Delivered && last.at == k {
        ProjectOne(Into(port), (last.target, last.value));
      }
    }
  }

  /** Of everything owed at an instant, the port is owed what its source emitted one period before. */
  lemma {:induction false} OwedIsEmitted(connections: seq<Connection>, i: nat, s: nat, k: nat, log: seq<Action>)
    requires i < |connections|
    requires forall j :: 0 <= j < |connections| && j != i ==> connections[j].target != connections[i].target
    requires forall j :: 0 <= j < |log| && log[j].Step? && log[j].id == connections[i].source.component ==> log[j].span == s
    ensures Project(Into(connections[i].target), Project(Owed(connections, k), log))
         == Project(Emitted(connections[i].source, k - s), log)
  {
    if log == [] {
    } else {
      var front, last := log[..|log| - 1], log[|log| - 1];
      OwedIsEmitted(connections, i, s, k, front);
      ProjectConcat(Into(connections[i].target), Project(Owed(connections, k), front), Owed(connections, k)(last));
      if last.Step? && Acceptable(last.result) {
        DeliveriesInto(connections, i, last.id, last.result.value.outputs);
      }
    }
  }

  lemma ForeignInjection(system: System, e: Experiment, env: Env, q: nat, trace: seq<Action>, n: nat, i: nat, j: nat)
    requires CompleteTicks(system, e, env, q, trace, n) && OnlyFeed(system, e, i)
    requires q > 0 && i < |system.connections|
    requires var log := Loop(system, e, env, q, StartWorld(trace), n).trace;
             j < |log| && log[j].Inject? && log[j].target == system.connections[i].target
    ensures Loop(system, e, env, q, StartWorld(trace), n).trace[j].origin == Delivered
  {
    hide Loop, TimelineAt, Project, CompleteTicks;
    var log := Loop(system, e, env, q, StartWorld(trace), n).trace;
    var a := log[j];
    if a.origin != Delivered {
      ProjectMember(Injected(a.origin, a.at), log, j);
      TimelineCalls(system, e, env, q, trace, n, a.at);
      var x := (a.target, a.value);
      assert x in Injected(a.origin, a.at)(a);
      if a.origin == Stimulated {
        TimelineMember(e.stimuli, a.at, x);
      } else {
        TimelineMember(FaultTimeline(e.faults), a.at, x);
      }
    }
  }

  lemma SpanIsPeriod(system: System, e: Experiment, env: Env, q: nat, trace: seq<Action>, n: nat, c: nat, j: nat)
    requires CompleteTicks(system, e, env, q, trace, n) && c < |system.components|
    requires var log := Loop(system, e, env, q, StartWorld(trace), n).trace;
             j < |log| && log[j].Step? && log[j].id == system.components[c].id
    ensures Loop(system, e, env, q, StartWorld(trace), n).trace[j].span == Period(system.components[c], q)
  {
    hide Loop, Project;
    var log := Loop(system, e, env, q, StartWorld(trace), n).trace;
    PeriodsOnGrid(system, e, q, 0);
    StepsTile(system, e, env, q, trace, n, c);
    ProjectMember(StepsOf(log[j].id), log, j);
    assert (log[j].at, log[j].span) in StepsOf(log[j].id)(log[j]);
  }

  /**
    A port with a single feed receives at instant k exactly what its source emitted on the connected
    port in the step that started one period before k - and nothing at any other instant.
   */
  lemma SingleFeed(system: System, e: Experiment, env: Env, q: nat, trace: seq<Action>, n: nat, i: nat, c: nat, k: nat)
    requires CompleteTicks(system, e, env, q, trace, n) && OnlyFeed(system, e, i)
    requires q > 0 && i < |system.connections|
    requires c < |system.components| && system.components[c].id == system.connections[i].source.component
    requires k < n * q
    ensures var log := Loop(system, e, env, q, StartWorld(trace), n).trace;
            var connection := system.connections[i];
            Project(Received(connection.target, k), log)
            == Project(Emitted(connection.source, k - Period(system.components[c], q)), log)
  {
    hide Loop, Project, CompleteTicks;
    var log := Loop(system, e, env, q, StartWorld(trace), n).trace;
    var connection := system.connections[i];
    forall j | 0 <= j < |log| && log[j].Inject? && log[j].target == connection.target
      ensures log[j].origin == Delivered
    {
      ForeignInjection(system, e, env, q, trace, n, i, j);
    }
    forall j | 0 <= j < |log| && log[j].Step? && log[j].id == connection.source.component
      ensures log[j].span == Period(system.components[c], q)
    {
      SpanIsPeriod(system, e, env, q, trace, n, c, j);
    }
    ReceivedIsDelivered(connection.target, k, log);
    DeliveryLedger(system, e, env, q, trace, n, k);
    OwedIsEmitted(system.connections, i, Period(system.components[c], q), k, log);
  }

  lemma {:induction false} NothingEmittedOffTiles(source: PortRef, at: int, log: seq<Action>, s: nat, m: nat)
    requires Project(StepsOf(source.component), log) == Tiles(s, m)
    requires s > 0 && (at < 0 || at % s != 0)
    ensures Project(Emitted(source, at), log) == []
  {
    hide Project;
    forall j | 0 <= j < |log|
      ensures Emitted(source, at)(log[j]) == []
    {
      if log[j].Step? && log[j].id == source.component && log[j].at == at {
        ProjectMember(StepsOf(source.component), log, j);
        assert (log[j].at, log[j].span) in StepsOf(source.component)(log[j]);
        var x :| 0 <= x < m && Tiles(s, m)[x] == (log[j].at, log[j].span);
        MultipleMod(s, x);
      }
    }
    ProjectNothing(Emitted(source, at), log);
  }

  /**
    Sample and hold. At instant t the last thing the port can have received came at the latest
    multiple of the period, m * s with m = floor(t / s): it is what step number m - 1 of the source
    emitted, nothing when m = 0, and nothing has come since.
   */
  lemma SampleAndHoldTheorem(system: System, e: Experiment, env: Env, q: nat, trace: seq<Action>, n: nat, i: nat, c: nat, t: nat)
    requires CompleteTicks(system, e, env, q, trace, n) && OnlyFeed(system, e, i)
    requires q > 0 && i < |system.connections|
    requires c < |system.components| && system.components[c].id == system.connections[i].source.component
    requires t < n * q && Period(system.components[c], q) > 0
    ensures var log := Loop(system, e, env, q, StartWorld(trace), n).trace;
            var connection := system.connections[i];
            var s := Period(system.components[c], q);
            var m := t / s;
            && Project(Received(connection.target, m * s), log)
               == (if m == 0 then [] else Project(Emitted(connection.source, (m - 1) * s), log))
            && (forall k: nat :: m * s < k <= t ==> Project(Received(connection.target, k), log) == [])
            && (m > 0 ==> ((m - 1) * s, s) in Project(StepsOf(connection.source.component), log))
  {
    hide Loop, Project, CompleteTicks, OnlyFeed, Received, Emitted;
    var log := Loop(system, e, env, q, StartWorld(trace), n).trace;
    var connection := system.connections[i];
    var s := Period(system.components[c], q);
    var m := t / s;
    FloorInstant(s, t);
    StepsTile(system, e, env, q, trace, n, c);
    SingleFeed(system, e, env, q, trace, n, i, c, m * s);
    if m == 0 {
      NothingEmittedOffTiles(connection.source, m * s - s, log, s, Ceiling(n * q, s));
    } else {
      EarlierTile(s, m, t, n * q);
    }
    forall k: nat | m * s < k <= t
      ensures Project(Received(connection.target, k), log) == []
    {
      hide *;
      SingleFeed(system, e, env, q, trace, n, i, c, k);
      BetweenTiles(s, t, k);
      NothingEmittedOffTiles(connection.source, k - s, log, s, Ceiling(n * q, s));
    }
  }

  lemma FloorInstant(s: nat, t: nat)
    requires s > 0
    ensures var m := t / s; m * s <= t && m * s - s == (m - 1) * s
  {
    assert t == s * (t / s) + t % s;
  }

  lemma BetweenTiles(s: nat, t: nat, k: nat)
    requires s > 0 && t / s * s < k <= t
    ensures (k - s) % s != 0
  {
    var m := t / s;
    assert t == s * m + t % s;
    assert k - s == s * (m - 1) + (k - m * s);
    QuotientUnique(k - s, s, m - 1, k - m * s);
  }

  lemma EarlierTile(s: nat, m: nat, t: nat, end: nat)
    requires s > 0 && m > 0 && m * s <= t < end
    ensures ((m - 1) * s, s) in Tiles(s, Ceiling(end, s))
  {
    var x := Ceiling(end, s);
    assert s * x + (end + s - 1) % s == end + s - 1;
    if x < m {
      assert s * x <= s * (m - 1) by {
        ProductBounds(s, m - 1 - x);
      }
      assert false;
    }
    assert Tiles(s, x)[m - 1] == ((m - 1) * s, s);
  }
}
