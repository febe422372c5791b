/**
 _downstream_sets(): for every node, itself plus every node that depends on it
 through some chain, found by a depth-first walk over the reversed edges.
 */
module Downstreams {
  import opened Digraph
  import opened DagModel

  /** dependents[d] lists exactly the nodes that name d in depends_on. */
  ghost predicate Reverses(g: Dag, dependents: map<NodeId, seq<NodeId>>) {
    && dependents.Keys == Elements(g.nodes)
    && forall d, n :: d in dependents ==> (n in dependents[d] <==> n in g.nodes && d in Deps(g, n))
  }

  method Dependents(g: Dag) returns (dependents: map<NodeId, seq<NodeId>>)
    requires Built(g) && InGraph(g)
    ensures Reverses(g, dependents)
  {
    dependents := map n | n in g.nodes :: [];
    for i := 0 to |g.nodes|
      invariant dependents.Keys == Elements(g.nodes)
      invariant forall d, n :: d in dependents ==> (n in dependents[d] <==> n in g.nodes[..i] && d in Deps(g, n))
    {
      var node := g.nodes[i];
      ghost var before := dependents;
      var deps := Deps(g, node);
      for j := 0 to |deps|
        invariant dependents.Keys == Elements(g.nodes)
        invariant forall d, n :: d in dependents ==>
          (n in dependents[d] <==> n in before[d] || (n == node && d in deps[..j]))
      {
        var dep := deps[j];
        assert deps[..j + 1] == deps[..j] + [dep];
        dependents := dependents[dep := dependents[dep] + [node]];
      }
      assert deps[..|deps|] == deps;
      assert g.nodes[..i + 1] == g.nodes[..i] + [node];
    }
    assert g.nodes[..|g.nodes|] == g.nodes;
  }

  /** Whoever depends on a member of `reached` that is not pending is a member too. */
  ghost predicate ClosedBut(g: Dag, reached: set<NodeId>, pending: set<NodeId>) {
    forall d, n :: d in reached && d !in pending && n in g.nodes && d in Deps(g, n) ==> n in reached
  }

  ghost function DownstreamOf(g: Dag, start: NodeId): set<NodeId> {
    set n | n in g.nodes && Downstream(g, start, n)
  }

  lemma DownstreamIsClosed(g: Dag, start: NodeId)
    requires start in g.nodes
    ensures start in DownstreamOf(g, start) && ClosedBut(g, DownstreamOf(g, start), {})
  {
    ReachesSelf(DependencyGraph(g), start);
    forall d, n | d in DownstreamOf(g, start) && n in g.nodes && d in Deps(g, n) ensures n in DownstreamOf(g, start) {
      assert Edge(DependencyGraph(g), n, d);
      ReachesStep(DependencyGraph(g), n, d, start);
    }
  }

  /** The worklist: `bound` is any closed set holding start, and `reached` never leaves it. */
  method Closure(g: Dag, dependents: map<NodeId, seq<NodeId>>, start: NodeId, ghost bound: set<NodeId>)
    returns (reached: set<NodeId>)
    requires Reverses(g, dependents) && start in bound && bound <= Elements(g.nodes) && ClosedBut(g, bound, {})
    ensures start in reached && reached <= bound && ClosedBut(g, reached, {})
  {
    reached := {start};
    var stack := [start];
    while stack != []
      invariant start in reached && reached <= bound && (forall n :: n in stack ==> n in reached)
      invariant ClosedBut(g, reached, Elements(stack))
      decreases bound - reached, |stack|
    {
      var top := stack[|stack| - 1];
      assert top in stack;
      stack := stack[..|stack| - 1];
      var children := dependents[top];
      ghost var before, popped := reached, stack;
      for i := 0 to |children|
        invariant before <= reached <= bound && (forall n :: n in stack ==> n in reached)
        invariant ClosedBut(g, reached, Elements(stack) + {top})
        invariant forall k :: 0 <= k < i ==> children[k] in reached
        invariant reached == before ==> stack == popped
      {
        var child := children[i];
        if child !in reached {
          assert child in dependents[top];
          reached := reached + {child};
          ghost var short := stack;
          stack := stack + [child];
          assert Elements(stack) == Elements(short) + {child};
        }
      }
    }
  }

  method ReachedFrom(g: Dag, dependents: map<NodeId, seq<NodeId>>, start: NodeId) returns (reached: set<NodeId>)
    requires Reverses(g, dependents) && start in g.nodes
    ensures reached == DownstreamOf(g, start)
  {
    DownstreamIsClosed(g, start);
    reached := Closure(g, dependents, start, DownstreamOf(g, start));
    forall n | n in DownstreamOf(g, start) ensures n in reached {
      var p: seq<NodeId> :| WalkFromTo(DependencyGraph(g), p, n, start);
      ClosureCatches(g, reached, p);
    }
  }

  /** A set closed under dependents that holds the end of a chain holds its beginning. */
  lemma {:induction false} ClosureCatches(g: Dag, reached: set<NodeId>, p: seq<NodeId>)
    requires ClosedBut(g, reached, {}) && Walk(DependencyGraph(g), p) && p[|p| - 1] in reached
    ensures p[0] in reached
    decreases |p|
  {
    if |p| > 1 {
      assert Edge(DependencyGraph(g), p[0], p[1]);
      var q := p[1..];
      forall k | 0 <= k < |q| - 1 ensures Edge(DependencyGraph(g), q[k], q[k + 1]) {
        assert Edge(DependencyGraph(g), p[k + 1], p[k + 2]);
      }
      ClosureCatches(g, reached, q);
    }
  }

  method DownstreamSets(g: Dag) returns (downstream: map<NodeId, set<NodeId>>)
    requires Built(g) && InGraph(g)
    ensures downstream.Keys == Elements(g.nodes)
    ensures forall m :: m in downstream ==> downstream[m] == DownstreamOf(g, m)
  {
    var dependents := Dependents(g);
    downstream := map[];
    for i := 0 to |g.nodes|
      invariant forall m :: m in downstream <==> m in g.nodes[..i]
      invariant forall m :: m in downstream ==> downstream[m] == DownstreamOf(g, m)
    {
      assert g.nodes[..i + 1] == g.nodes[..i] + [g.nodes[i]];
      var reached := ReachedFrom(g, dependents, g.nodes[i]);
      downstream := downstream[g.nodes[i] := reached];
    }
    assert g.nodes[..|g.nodes|] == g.nodes;
  }
}
