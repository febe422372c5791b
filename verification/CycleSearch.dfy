/**
 validate()'s depth-first cycle test: has_cycle() grows `visited` and `rec_stack`
 while it recurses through depends_on.
 */
module CycleSearch {
  import opened Digraph
  import opened DagModel

  class Search {
    const g: Dag
    var visited: set<NodeId>
    var recStack: set<NodeId>
    /** The nodes has_cycle() has returned False for, in the order it did. */
    ghost var done: seq<NodeId>

    ghost predicate Valid()
      reads this
    {
      && InGraph(g)
      && recStack <= visited <= Elements(g.nodes)
      && (forall n :: n in done <==> n in visited && n !in recStack)
      && Distinct(done)
      && TopologicalOrder(g, done)
    }

    constructor (g: Dag)
      requires InGraph(g)
      ensures Valid() && this.g == g && visited == {} && recStack == {}
    {
      this.g := g;
      visited, recStack, done := {}, {}, [];
    }

    /** `path` is the chain of calls has_cycle() is inside of: recStack, in order. */
    method HasCycle(node: NodeId, ghost path: seq<NodeId>) returns (cyclic: bool)
      requires Valid() && node in g.nodes && node !in visited
      requires Elements(path) == recStack && Walk(DependencyGraph(g), path + [node])
      modifies this
      ensures old(visited) <= visited
      ensures cyclic ==> !Acyclic(DependencyGraph(g))
      ensures !cyclic ==> Valid() && recStack == old(recStack) && node in visited
      decreases Elements(g.nodes) - visited
    {
      ghost var chain := path + [node];
      visited := visited + {node};
      recStack := recStack + {node};
      var deps := Deps(g, node);
      for i := 0 to |deps|
        invariant Valid() && recStack == old(recStack) + {node}
        invariant old(visited) + {node} <= visited
        invariant forall k :: 0 <= k < i ==> deps[k] in visited && deps[k] !in recStack
      {
        var dep := deps[i];
        if dep !in visited {
          WalkOn(g, chain, dep);
          var found := HasCycle(dep, chain);
          if found {
            return true;
          }
        } else if dep in recStack {
          ClosesCycle(g, chain, dep);
          return true;
        }
      }
      recStack := recStack - {node};
      ExtendOrder(g, done, node);
      done := done + [node];
      return false;
    }
  }

  lemma WalkOn(g: Dag, chain: seq<NodeId>, dep: NodeId)
    requires Walk(DependencyGraph(g), chain) && chain[|chain| - 1] in g.nodes
    requires dep in Deps(g, chain[|chain| - 1])
    ensures Walk(DependencyGraph(g), chain + [dep])
  {
    var w := chain + [dep];
    forall i | 0 <= i < |w| - 1 ensures Edge(DependencyGraph(g), w[i], w[i + 1]) {
      assert i < |chain| - 1 ==> Edge(DependencyGraph(g), chain[i], chain[i + 1]);
    }
  }

  lemma ClosesCycle(g: Dag, chain: seq<NodeId>, dep: NodeId)
    requires Walk(DependencyGraph(g), chain) && chain[|chain| - 1] in g.nodes
    requires dep in Deps(g, chain[|chain| - 1]) && dep in chain
    ensures !Acyclic(DependencyGraph(g))
  {
    WalkOn(g, chain, dep);
    var k :| 0 <= k < |chain| && chain[k] == dep;
    var w := chain + [dep];
    var c := w[k..];
    forall i | 0 <= i < |c| - 1 ensures Edge(DependencyGraph(g), c[i], c[i + 1]) {
      assert Edge(DependencyGraph(g), w[k + i], w[k + i + 1]);
    }
    assert Cycle(DependencyGraph(g), c);
  }

  /** The loop over self.nodes in validate(): it finds a cycle exactly when there is one. */
  method FindCycle(g: Dag) returns (cyclic: bool)
    requires Built(g) && InGraph(g)
    ensures cyclic <==> !Acyclic(DependencyGraph(g))
  {
    var s := new Search(g);
    for i := 0 to |g.nodes|
      invariant s.Valid() && s.g == g && s.recStack == {}
      invariant forall k :: 0 <= k < i ==> g.nodes[k] in s.visited
    {
      if g.nodes[i] !in s.visited {
        assert Elements<NodeId>([]) == {};
        assert Walk(DependencyGraph(g), [] + [g.nodes[i]]);
        var found := s.HasCycle(g.nodes[i], []);
        if found {
          return true;
        }
      }
    }
    OrderedIsAcyclic(g, s.done);
    return false;
  }
}
