/**
 The dependency graph a DAGBuilder holds: its nodes in the order they were added,
 each node's depends_on list, and which nodes carry an identity_key. A node is its
 node_id, which is what equality and hashing of DAGNode use.
 */
module DagModel {
  import opened Digraph

  datatype NodeId = NodeId(uuid: nat)

  datatype Dag = Dag(nodes: seq<NodeId>, dependsOn: map<NodeId, seq<NodeId>>, identified: set<NodeId>)

  /** The ways DAGBuilder refuses a graph. */
  datatype DagError = IdentityOnNode | ForeignDependency | CycleFound | LevelsStuck | GroupDeadlock

  ghost predicate Distinct<T>(s: seq<T>) {
    forall i, j :: 0 <= i < j < |s| ==> s[i] != s[j]
  }

  ghost function Elements<T>(s: seq<T>): (r: set<T>) {
    set x | x in s
  }

  /** No two nodes share a node_id, and every node has a depends_on list. */
  ghost predicate Built(g: Dag) {
    && Distinct(g.nodes)
    && forall n :: n in g.nodes ==> n in g.dependsOn
  }

  function Deps(g: Dag, n: NodeId): seq<NodeId> {
    if n in g.dependsOn then g.dependsOn[n] else []
  }

  ghost predicate InGraph(g: Dag) {
    forall n, d :: n in g.nodes && d in Deps(g, n) ==> d in g.nodes
  }

  /** No node lists the same upstream twice, which is what add() guarantees. */
  ghost predicate DistinctDeps(g: Dag) {
    forall n :: n in g.nodes ==> Distinct(Deps(g, n))
  }

  /** An edge leads from a node to each node it depends on. */
  ghost function DependencyGraph(g: Dag): (r: Graph<NodeId>)
    ensures forall a, b :: Edge(r, a, b) <==> a in g.nodes && b in Deps(g, a)
  {
    map n | n in g.nodes :: Elements(Deps(g, n))
  }

  /** n is m itself, or depends on m through some chain. */
  ghost predicate Downstream(g: Dag, m: NodeId, n: NodeId) {
    Reaches(DependencyGraph(g), n, m)
  }

  lemma {:induction false} DistinctCount<T>(s: seq<T>)
    ensures |Elements(s)| <= |s|
    ensures |Elements(s)| == |s| <==> Distinct(s)
  {
    if s == [] {
      assert Elements(s) == {};
    } else {
      var init, last := s[..|s| - 1], s[|s| - 1];
      DistinctCount(init);
      assert s == init + [last];
      assert Elements(s) == Elements(init) + {last};
      if last in init {
        var k :| 0 <= k < |init| && init[k] == last;
        assert s[k] == s[|s| - 1];
        assert Elements(s) == Elements(init);
      } else if Distinct(init) {
        forall i, j | 0 <= i < j < |s| ensures s[i] != s[j] {
          assert s[i] == init[i];
        }
      } else {
        var i, j :| 0 <= i < j < |init| && init[i] == init[j];
        assert s[i] == s[j];
      }
    }
  }

  /** Each dependency comes strictly before its dependent. */
  ghost predicate TopologicalOrder(g: Dag, order: seq<NodeId>) {
    forall i, d :: 0 <= i < |order| && d in Deps(g, order[i]) ==> d in order[..i]
  }

  lemma ExtendOrder(g: Dag, order: seq<NodeId>, n: NodeId)
    requires TopologicalOrder(g, order) && forall d :: d in Deps(g, n) ==> d in order
    ensures TopologicalOrder(g, order + [n])
  {
    var r := order + [n];
    forall i, d | 0 <= i < |r| && d in Deps(g, r[i]) ensures d in r[..i] {
      assert r[..i] == order[..i];
    }
  }

  lemma OrderedIsAcyclic(g: Dag, order: seq<NodeId>)
    requires TopologicalOrder(g, order) && Distinct(order) && forall n :: n in g.nodes ==> n in order
    ensures Acyclic(DependencyGraph(g))
  {
    var rank := map n | n in order :: IndexOf(order, n);
    forall a, b | Edge(DependencyGraph(g), a, b)
      ensures a in rank && b in rank && rank[b] < rank[a]
    {
      assert order[rank[a]] == a;
      assert b in order[..rank[a]];
      var k :| 0 <= k < rank[a] && order[k] == b;
      assert rank[b] == k;
    }
    RankedIsAcyclic(DependencyGraph(g), rank);
  }

  function IndexOf(s: seq<NodeId>, x: NodeId): (i: nat)
    requires x in s
    ensures i < |s| && s[i] == x && x !in s[..i]
  {
    if s[0] == x then 0 else 1 + IndexOf(s[1..], x)
  }
}
