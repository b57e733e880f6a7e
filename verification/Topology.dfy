// Detection of direct-feedthrough loops: the recursive walk of validate_fmi_topology
// against cycles of the feedthrough graph.
module Topology {
  import opened Common

  datatype Component = Component(id: string, directFeedthrough: bool)

  /** A connection between two ports, by the components they belong to. */
  datatype Wire = Wire(source: string, target: string)

  type Graph = map<string, set<string>>

  // ---- Graphs -------------------------------------------------------------------------------------

  ghost predicate Edge(graph: Graph, a: string, b: string)
  {
    a in graph && b in graph[a]
  }

  ghost predicate Walk(graph: Graph, p: seq<string>)
  {
    forall i :: 0 <= i < |p| - 1 ==> Edge(graph, p[i], p[i + 1])
  }

  ghost predicate Cycle(graph: Graph, p: seq<string>)
  {
    |p| > 0 && Walk(graph, p) && Edge(graph, p[|p| - 1], p[0])
  }

  ghost predicate HasCycle(graph: Graph)
  {
    exists p :: Cycle(graph, p)
  }

  /** Every edge leads to something earlier in the list. */
  ghost predicate EdgesGoBack(graph: Graph, order: seq<string>)
  {
    forall i :: 0 <= i < |order| ==> order[i] in graph && forall b :: b in graph[order[i]] ==> b in order[..i]
  }

  /** Each node once, and every edge from a later node to an earlier one. */
  ghost predicate ReverseTopological(graph: Graph, order: seq<string>)
  {
    Distinct(order) && (set x <- order) == graph.Keys && EdgesGoBack(graph, order)
  }

  /** Along a walk the positions in such a list can only fall. */
  lemma {:induction false} WalkGoesBack(graph: Graph, order: seq<string>, p: seq<string>, n: nat, a: nat) returns (b: nat)
    requires Distinct(order) && EdgesGoBack(graph, order) && Walk(graph, p) && n < |p|
    requires a < |order| && order[a] == p[0]
    ensures b <= a && order[b] == p[n]
  {
    b := a;
    if n == 0 {
    } else {
      var c := WalkGoesBack(graph, order, p, n - 1, a);
      assert Edge(graph, p[n - 1], p[n]);
      assert p[n] in order[..c];
      b :| 0 <= b < c && order[b] == p[n];
    }
  }

  /** A graph with a reverse topological order has no cycle. */
  lemma OrderedIsAcyclic(graph: Graph, order: seq<string>)
    requires ReverseTopological(graph, order)
    ensures !HasCycle(graph)
  {
    if HasCycle(graph) {
      var p :| Cycle(graph, p);
      assert p[|p| - 1] in graph;
      if |p| > 1 {
        assert Edge(graph, p[0], p[1]);
      }
      assert p[0] in order;
      var a :| 0 <= a < |order| && order[a] == p[0];
      var b := WalkGoesBack(graph, order, p, |p| - 1, a);
      assert false;
    }
  }

  // ---- The feedthrough graph ---------------------------------------------------------------------------

  ghost predicate ValidManifest(components: seq<Component>, wires: seq<Wire>)
  {
    && (forall i, j :: 0 <= i < j < |components| ==> components[i].id != components[j].id)
    && (forall w <- wires :: (exists c <- components :: c.id == w.source) && exists c <- components :: c.id == w.target)
  }

  /** b depends on a within one instant: some wire leads from a, which passes inputs straight through, to b. */
  ghost predicate Feeds(components: seq<Component>, wires: seq<Wire>, a: string, b: string)
  {
    Wire(a, b) in wires && Component(a, true) in components
  }

  ghost predicate IsFeedthroughGraph(graph: Graph, components: seq<Component>, wires: seq<Wire>)
  {
    && (forall id :: id in graph <==> exists c <- components :: c.id == id)
    && (forall a, b :: Edge(graph, a, b) <==> Feeds(components, wires, a, b))
  }

  /** The feedthrough graph of a manifest. */
  function FeedthroughGraph(components: seq<Component>, wires: seq<Wire>): (graph: Graph)
    ensures IsFeedthroughGraph(graph, components, wires)
  {
    map c <- components :: c.id := set w <- wires | w.source == c.id && Component(c.id, true) in components :: w.target
  }

  lemma OneFeedthroughGraph(a: Graph, b: Graph, components: seq<Component>, wires: seq<Wire>)
    requires IsFeedthroughGraph(a, components, wires) && IsFeedthroughGraph(b, components, wires)
    ensures a == b
  {
    assert a.Keys == b.Keys;
    forall x | x in a
      ensures a[x] == b[x]
    {
      forall y
        ensures y in a[x] <==> y in b[x]
      {
        assert Edge(a, x, y) <==> Edge(b, x, y);
      }
    }
  }

  method BuildGraph(components: seq<Component>, wires: seq<Wire>) returns (graph: Graph)
    requires ValidManifest(components, wires)
    ensures IsFeedthroughGraph(graph, components, wires)
  {
    var byId: map<string, Component> := map[];
    graph := map[];
    for i := 0 to |components|
      invariant forall id :: id in byId <==> exists j :: 0 <= j < i && components[j].id == id
      invariant forall j :: 0 <= j < i ==> byId[components[j].id] == components[j]
      invariant graph.Keys == byId.Keys
      invariant forall id <- graph :: graph[id] == {}
    {
      byId := byId[components[i].id := components[i]];
      graph := graph[components[i].id := {}];
    }
    assert wires[..0] == [];
    for i := 0 to |wires|
      invariant graph.Keys == byId.Keys
      invariant forall a, b :: Edge(graph, a, b) <==> Feeds(components, wires[..i], a, b)
    {
      var w := wires[i];
      assert w in wires;
      assert wires[..i + 1] == wires[..i] + [w];
      FeedsOneMore(components, wires[..i], w);
      var source := byId[w.source];
      assert source in components;
      UniqueComponent(components, source, w.source);
      ghost var before := graph;
      if source.directFeedthrough {
        graph := graph[w.source := graph[w.source] + {w.target}];
      }
      forall a, b
        ensures Edge(graph, a, b) <==> Feeds(components, wires[..i + 1], a, b)
      {
        assert Edge(graph, a, b) <==> Edge(before, a, b) || (source.directFeedthrough && a == w.source && b == w.target);
      }
    }
    assert wires[..|wires|] == wires;
  }

  lemma FeedsOneMore(components: seq<Component>, wires: seq<Wire>, w: Wire)
    ensures forall a, b :: Feeds(components, wires + [w], a, b) <==>
      Feeds(components, wires, a, b) || (w == Wire(a, b) && Component(a, true) in components)
  {
  }

  lemma UniqueComponent(components: seq<Component>, c: Component, id: string)
    requires forall i, j :: 0 <= i < j < |components| ==> components[i].id != components[j].id
    requires c in components && c.id == id
    ensures Component(id, true) in components <==> c.directFeedthrough
  {
  }

  // ---- The walk -----------------------------------------------------------------------------------------

  class Traversal {
    const graph: Graph
    var visiting: set<string>
    var visited: set<string>
    // The nodes being visited, outermost first, and the nodes finished, in order.
    ghost var path: seq<string>
    ghost var order: seq<string>

    constructor (graph: Graph)
      requires forall a, b :: Edge(graph, a, b) ==> b in graph
      ensures this.graph == graph && Valid() && path == [] && order == []
    {
      this.graph := graph;
      visiting, visited, path, order := {}, {}, [], [];
    }

    ghost predicate Valid()
      reads this
    {
      && (forall a, b :: Edge(graph, a, b) ==> b in graph)
      && visiting == (set x <- path) && Walk(graph, path) && (forall x <- path :: x in graph)
      && visited == (set x <- order) && Distinct(order) && EdgesGoBack(graph, order)
      && visited !! visiting
    }

    /** Walks everything reachable from a node; false stands for the raised algebraic-loop error. */
    method Visit(node: string) returns (ok: bool)
      requires Valid() && node in graph
      requires path != [] ==> Edge(graph, path[|path| - 1], node)
      modifies this
      ensures ok ==> Valid() && node in visited && path == old(path) && visiting == old(visiting) && old(visited) <= visited
      ensures !ok ==> HasCycle(graph)
      decreases graph.Keys - (visiting + visited)
    {
      if node in visiting {
        CloseTheLoop(graph, path, node);
        return false;
      }
      if node in visited {
        return true;
      }
      visiting := visiting + {node};
      path := path + [node];
      var remaining := graph[node];
      while remaining != {}
        invariant Valid() && path == old(path) + [node] && visiting == old(visiting) + {node}
        invariant old(visited) <= visited && remaining <= graph[node]
        invariant graph[node] - remaining <= visited
        decreases remaining
      {
        var target :| target in remaining;
        assert Edge(graph, node, target);
        assert node !in old(visited) && node !in old(visiting);
        var descended := Visit(target);
        if !descended {
          return false;
        }
        remaining := remaining - {target};
      }
      forall b | b in graph[node]
        ensures b in order
      {
        assert b in graph[node] - remaining;
      }
      FinishNode(graph, order, node);
      visiting := visiting - {node};
      visited := visited + {node};
      order := order + [node];
      path := path[..|path| - 1];
      return true;
    }
  }

  lemma CloseTheLoop(graph: Graph, path: seq<string>, node: string)
    requires Walk(graph, path) && node in path && Edge(graph, path[|path| - 1], node)
    ensures HasCycle(graph)
  {
    var k :| 0 <= k < |path| && path[k] == node;
    var p := path[k..];
    forall i | 0 <= i < |p| - 1
      ensures Edge(graph, p[i], p[i + 1])
    {
      assert Edge(graph, path[k + i], path[k + i + 1]);
    }
    assert Cycle(graph, p);
  }

  lemma FinishNode(graph: Graph, order: seq<string>, node: string)
    requires Distinct(order) && EdgesGoBack(graph, order) && node in graph && node !in order
    requires forall b :: b in graph[node] ==> b in order
    ensures Distinct(order + [node]) && EdgesGoBack(graph, order + [node])
    ensures (set x <- order + [node]) == (set x <- order) + {node}
  {
    var more := order + [node];
    forall i | 0 <= i < |more|
      ensures more[i] in graph && forall b :: b in graph[more[i]] ==> b in more[..i]
    {
      if i < |order| {
        assert more[..i] == order[..i];
      } else {
        assert more[..i] == order;
      }
    }
  }

  /** The next entry, around the end. */
  function After(p: seq<string>, i: nat): string
    requires i < |p|
  {
    if i == |p| - 1 then p[0] else p[i + 1]
  }

  /** A ring of components, each passing its inputs straight through and wired to the next. */
  ghost predicate AlgebraicLoop(components: seq<Component>, wires: seq<Wire>, p: seq<string>)
  {
    && |p| > 0
    && forall i :: 0 <= i < |p| ==>
                     && (exists c <- components :: c.id == p[i] && c.directFeedthrough)
                     && exists w <- wires :: w.source == p[i] && w.target == After(p, i)
  }

  lemma CyclesAreLoops(components: seq<Component>, wires: seq<Wire>, p: seq<string>)
    ensures Cycle(FeedthroughGraph(components, wires), p) <==> AlgebraicLoop(components, wires, p)
  {
    hide FeedthroughGraph;
    var graph := FeedthroughGraph(components, wires);
    forall a, b
      ensures Edge(graph, a, b) <==> (exists c <- components :: c.id == a && c.directFeedthrough) && exists w <- wires :: w.source == a && w.target == b
    {
      assert Edge(graph, a, b) <==> Feeds(components, wires, a, b);
      if c :| c in components && c.id == a && c.directFeedthrough {
        assert c == Component(a, true);
      }
      if w :| w in wires && w.source == a && w.target == b {
        assert w == Wire(a, b);
      }
    }
    hide Edge;
    CycleIsRing(graph, p);
  }

  lemma CycleIsRing(graph: Graph, p: seq<string>)
    ensures Cycle(graph, p) <==> |p| > 0 && forall i :: 0 <= i < |p| ==> Edge(graph, p[i], After(p, i))
  {
    hide Edge;
    if |p| > 0 && forall i :: 0 <= i < |p| ==> Edge(graph, p[i], After(p, i)) {
      assert Edge(graph, p[|p| - 1], After(p, |p| - 1));
      assert forall i :: 0 <= i < |p| - 1 ==> After(p, i) == p[i + 1];
    }
  }

  /** Each component once, and after everything that it is wired to and passes its inputs straight through to. */
  ghost predicate FedFirst(components: seq<Component>, wires: seq<Wire>, order: seq<string>)
  {
    && Distinct(order) && (forall id :: id in order <==> exists c <- components :: c.id == id)
    && forall i, w :: 0 <= i < |order| && w in wires && w.source == order[i] && (exists c <- components :: c.id == w.source && c.directFeedthrough)
         ==> w.target in order[..i]
  }

  lemma OrderFeedsFirst(components: seq<Component>, wires: seq<Wire>, order: seq<string>)
    requires ReverseTopological(FeedthroughGraph(components, wires), order)
    ensures FedFirst(components, wires, order)
  {
    hide FeedthroughGraph;
    var graph := FeedthroughGraph(components, wires);
    forall i, w | 0 <= i < |order| && w in wires && w.source == order[i] && exists c <- components :: c.id == w.source && c.directFeedthrough
      ensures w.target in order[..i]
    {
      var c :| c in components && c.id == w.source && c.directFeedthrough;
      assert c == Component(w.source, true) && w == Wire(w.source, w.target);
      assert Edge(graph, w.source, w.target);
    }
    forall id
      ensures id in order <==> exists c <- components :: c.id == id
    {
      assert id in order <==> id in graph;
    }
  }

  /**
    The topology is accepted if and only if the direct-feedthrough graph has no cycle; then every
    component has been finished exactly once, after everything it feeds directly.
   */
  method ValidateTopology(components: seq<Component>, wires: seq<Wire>) returns (accepted: bool, ghost order: seq<string>)
    requires ValidManifest(components, wires)
    ensures accepted <==> !HasCycle(FeedthroughGraph(components, wires))
    ensures accepted ==> ReverseTopological(FeedthroughGraph(components, wires), order)
    ensures accepted <==> !exists p :: AlgebraicLoop(components, wires, p)
    ensures accepted ==> FedFirst(components, wires, order)
  {
    hide FeedthroughGraph, AlgebraicLoop, FedFirst;
    forall p {
      CyclesAreLoops(components, wires, p);
    }
    var built := BuildGraph(components, wires);
    OneFeedthroughGraph(built, FeedthroughGraph(components, wires), components, wires);
    order := [];
    forall a, b | Edge(built, a, b)
      ensures b in built
    {
      assert Wire(a, b) in wires;
    }
    var walk := new Traversal(built);
    for i := 0 to |components|
      invariant walk.graph == built && fresh(walk) && walk.Valid() && walk.path == []
      invariant forall j :: 0 <= j < i ==> components[j].id in walk.visited
    {
      assert components[i] in components;
      var ok := walk.Visit(components[i].id);
      if !ok {
        return false, [];
      }
    }
    order := walk.order;
    assert walk.visited == built.Keys by {
      forall id | id in built
        ensures id in walk.visited
      {
        var c :| c in components && c.id == id;
        var j :| 0 <= j < |components| && components[j] == c;
      }
    }
    OrderedIsAcyclic(built, order);
    OrderFeedsFirst(components, wires, order);
    return true, order;
  }
}
