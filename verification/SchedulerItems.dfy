// What the timeline and the connections of a document say, read off the lists by position.
module SchedulerItems {
  import opened Common
  import opened SchedulerModel

  /** Positions of a list of n entries, each at most once and in list order. */
  ghost predicate Ascending(ix: seq<nat>, n: nat)
  {
    && (forall a :: 0 <= a < |ix| ==> ix[a] < n)
    && (forall a, b :: 0 <= a < b < |ix| ==> ix[a] < ix[b])
  }

  // ---- Timeline --------------------------------------------------------------------------------------

  /** r is the stimuli stamped k, by their positions: each once, in list order, with its target and its value. */
  ghost predicate StimuliAt(stimuli: seq<Timed>, k: nat, r: seq<(PortRef, Value)>, ix: seq<nat>)
  {
    && Ascending(ix, |stimuli|) && |r| == |ix|
    && (forall i :: 0 <= i < |stimuli| ==> (stimuli[i].atUs == k <==> i in ix))
    && (forall a :: 0 <= a < |ix| ==> r[a] == (stimuli[ix[a]].target, stimuli[ix[a]].value))
  }

  /** r is the faults stamped k: at the port of the fault, marked with its kind, with its parameters. */
  ghost predicate FaultsAt(faults: seq<Fault>, k: nat, r: seq<(PortRef, Value)>, ix: seq<nat>)
  {
    && Ascending(ix, |faults|) && |r| == |ix|
    && (forall i :: 0 <= i < |faults| ==> (faults[i].atUs == k <==> i in ix))
    && (forall a :: 0 <= a < |ix| ==>
          var f := faults[ix[a]]; r[a] == (PortRef(f.target.component, f.target.port + ".fault." + f.kind), f.parameters))
  }

  ghost predicate StimuliListed(stimuli: seq<Timed>, k: nat, r: seq<(PortRef, Value)>)
  {
    exists ix :: StimuliAt(stimuli, k, r, ix)
  }

  ghost predicate FaultsListed(faults: seq<Fault>, k: nat, r: seq<(PortRef, Value)>)
  {
    exists ix :: FaultsAt(faults, k, r, ix)
  }

  lemma {:induction false} TimelineIs(items: seq<Timed>, k: nat) returns (ix: seq<nat>)
    ensures StimuliAt(items, k, TimelineAt(items, k), ix)
  {
    if items == [] {
      ix := [];
    } else {
      var n := |items| - 1;
      var front := items[..n];
      ix := TimelineIs(front, k);
      assert forall i :: 0 <= i < n ==> front[i] == items[i];
      if items[n].atUs == k {
        ix := ix + [n];
        assert ix[|ix| - 1] == n;
      }
    }
  }

  lemma FaultsAre(faults: seq<Fault>, k: nat) returns (ix: seq<nat>)
    ensures FaultsAt(faults, k, TimelineAt(FaultTimeline(faults), k), ix)
  {
    var items := FaultTimeline(faults);
    ix := TimelineIs(items, k);
    assert forall i :: 0 <= i < |faults| ==> items[i].atUs == faults[i].atUs;
  }

  // ---- Routing ---------------------------------------------------------------------------------------------

  /** Output o of a step of component id leaves through connection c. */
  predicate Leaves(connections: seq<Connection>, id: string, outputs: seq<(string, Value)>, o: int, c: int)
  {
    0 <= o < |outputs| && 0 <= c < |connections| && connections[c].source == PortRef(id, outputs[o].0)
  }

  predicate Earlier(a: (int, int), b: (int, int))
  {
    a.0 < b.0 || (a.0 == b.0 && a.1 < b.1)
  }

  ghost predicate LexAscending(ix: seq<(int, int)>)
  {
    forall a, b :: 0 <= a < b < |ix| ==> Earlier(ix[a], ix[b])
  }

  ghost predicate AllThatLeave(connections: seq<Connection>, id: string, outputs: seq<(string, Value)>, ix: seq<(int, int)>)
  {
    forall o, c :: (o, c) in ix <==> Leaves(connections, id, outputs, o, c)
  }

  ghost predicate ValuesToTargets(connections: seq<Connection>, outputs: seq<(string, Value)>, r: seq<(PortRef, Value)>, ix: seq<(int, int)>)
  {
    && |r| == |ix|
    && (forall a :: 0 <= a < |ix| ==> 0 <= ix[a].0 < |outputs| && 0 <= ix[a].1 < |connections|)
    && (forall a :: 0 <= a < |ix| ==> r[a] == (connections[ix[a].1].target, outputs[ix[a].0].1))
  }

  /**
    r is what a step delivers, by output and connection: one delivery for every output and every connection
    it leaves through, in output order and then in connection order, of that value to that target.
   */
  ghost predicate DeliveredFrom(connections: seq<Connection>, id: string, outputs: seq<(string, Value)>, r: seq<(PortRef, Value)>, ix: seq<(int, int)>)
  {
    LexAscending(ix) && AllThatLeave(connections, id, outputs, ix) && ValuesToTargets(connections, outputs, r, ix)
  }

  lemma {:induction false} TargetsAre(connections: seq<Connection>, source: PortRef) returns (ix: seq<nat>)
    ensures Ascending(ix, |connections|) && |TargetsOf(connections, source)| == |ix|
    ensures forall c :: 0 <= c < |connections| ==> (connections[c].source == source <==> c in ix)
    ensures forall a :: 0 <= a < |ix| ==> TargetsOf(connections, source)[a] == connections[ix[a]].target
  {
    if connections == [] {
      ix := [];
    } else {
      var n := |connections| - 1;
      var front := connections[..n];
      ix := TargetsAre(front, source);
      assert forall c :: 0 <= c < n ==> front[c] == connections[c];
      if connections[n].source == source {
        ix := ix + [n];
        assert ix[|ix| - 1] == n;
      }
    }
  }

  lemma {:induction false} DeliveriesAre(connections: seq<Connection>, id: string, outputs: seq<(string, Value)>) returns (ix: seq<(int, int)>)
    ensures DeliveredFrom(connections, id, outputs, Deliveries(connections, id, outputs), ix)
  {
    if outputs == [] {
      ix := [];
    } else {
      var n := |outputs| - 1;
      var front := outputs[..n];
      var before := DeliveriesAre(connections, id, front);
      var cs := TargetsAre(connections, PortRef(id, outputs[n].0));
      ix := before + Pairs(n, cs);
      OneMoreOutput(connections, id, outputs, Deliveries(connections, id, front), before, cs);
    }
  }

  function Pairs(n: nat, cs: seq<nat>): (r: seq<(int, int)>)
    ensures |r| == |cs| && forall a :: 0 <= a < |r| ==> r[a] == (n, cs[a])
  {
    seq(|cs|, a requires 0 <= a < |cs| => (n, cs[a]))
  }

  lemma OneMoreOutput(connections: seq<Connection>, id: string, outputs: seq<(string, Value)>,
                      r: seq<(PortRef, Value)>, before: seq<(int, int)>, cs: seq<nat>)
    requires outputs != [] && DeliveredFrom(connections, id, outputs[..|outputs| - 1], r, before)
    requires var source := PortRef(id, outputs[|outputs| - 1].0);
             && Ascending(cs, |connections|) && |TargetsOf(connections, source)| == |cs|
             && (forall c :: 0 <= c < |connections| ==> (connections[c].source == source <==> c in cs))
             && (forall a :: 0 <= a < |cs| ==> TargetsOf(connections, source)[a] == connections[cs[a]].target)
    ensures var last := outputs[|outputs| - 1];
            DeliveredFrom(connections, id, outputs, r + Fan(TargetsOf(connections, PortRef(id, last.0)), last.1), before + Pairs(|outputs| - 1, cs))
  {
    hide TargetsOf, LexAscending, AllThatLeave;
    var n := |outputs| - 1;
    MorePairsAscend(before, n, cs, |connections|);
    MorePairsLeave(connections, id, outputs, before, cs);
  }

  lemma MorePairsAscend(before: seq<(int, int)>, n: nat, cs: seq<nat>, m: nat)
    requires LexAscending(before) && Ascending(cs, m) && forall a :: 0 <= a < |before| ==> before[a].0 < n
    ensures LexAscending(before + Pairs(n, cs))
  {
  }

  lemma MorePairsLeave(connections: seq<Connection>, id: string, outputs: seq<(string, Value)>, before: seq<(int, int)>, cs: seq<nat>)
    requires outputs != [] && AllThatLeave(connections, id, outputs[..|outputs| - 1], before)
    requires forall a :: 0 <= a < |cs| ==> cs[a] < |connections|
    requires forall c :: 0 <= c < |connections| ==> (connections[c].source == PortRef(id, outputs[|outputs| - 1].0) <==> c in cs)
    ensures AllThatLeave(connections, id, outputs, before + Pairs(|outputs| - 1, cs))
  {
    var n := |outputs| - 1;
    var more := Pairs(n, cs);
    forall o, c
      ensures (o, c) in before + more <==> Leaves(connections, id, outputs, o, c)
    {
      assert (o, c) in before <==> Leaves(connections, id, outputs[..n], o, c);
      assert (o, c) in before + more <==> (o, c) in before || (o, c) in more;
      if o == n && 0 <= c < |connections| && c in cs {
        var a :| 0 <= a < |cs| && cs[a] == c;
        assert more[a] == (o, c);
      }
    }
  }

  // ---- Reported values ------------------------------------------------------------------------------------------

  function Named(name: string): ((string, Value)) -> seq<Value>
  {
    (output: (string, Value)) => if output.0 == name then [output.1] else []
  }
}
