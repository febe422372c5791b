/**
 What the lowered jobs wait for, against what the nodes depend on. A fan-in waits for
 every member of its group, so the wait graph has edges the dependency graph has not:
 these are where a deadlock can come from.
 */
module WaitGraphs {
  import opened Digraph
  import opened DagModel
  import opened Downstreams
  import opened Groups

  /** What node n waits for once lowered. */
  ghost function WaitSet(g: Dag, groups: GroupMap, n: NodeId): set<NodeId> {
    if n in groups then Elements(groups[n]) else Elements(Deps(g, n))
  }

  ghost function WaitGraph(g: Dag, groups: GroupMap): (r: Graph<NodeId>)
    ensures forall a, b :: Edge(r, a, b) <==> a in g.nodes && b in WaitSet(g, groups, a)
  {
    map n | n in g.nodes :: WaitSet(g, groups, n)
  }

  /** Fan-in x waits, through its group, for something that cannot finish before fan-in y. */
  ghost predicate HeldUpBy(g: Dag, groups: GroupMap, x: NodeId, y: NodeId) {
    x in groups && y in groups && exists m :: m in groups[x] && Downstream(g, y, m)
  }

  ghost function GroupGraph(g: Dag, groups: GroupMap): (r: Graph<NodeId>)
    ensures forall x, y :: Edge(r, x, y) <==> HeldUpBy(g, groups, x, y)
  {
    map x | x in groups :: set y | y in groups && HeldUpBy(g, groups, x, y)
  }

  ghost predicate Accepted(g: Dag, groups: GroupMap) {
    && Built(g) && InGraph(g) && Acyclic(DependencyGraph(g))
    && IsGrouping(g, groups) && !Blocked(g, groups)
  }

  /** A merged group can add waits, but a dependency is always among them. */
  lemma WaitsForDependencies(g: Dag, groups: GroupMap, a: NodeId, b: NodeId)
    requires Built(g) && InGraph(g) && IsGrouping(g, groups) && Edge(DependencyGraph(g), a, b)
    ensures Edge(WaitGraph(g, groups), a, b)
  {
    if FanIn(g, a) {
      GroupHoldsDependencies(g, groups, a);
    }
  }

  lemma DependencyWalkIsWaitWalk(g: Dag, groups: GroupMap, p: seq<NodeId>)
    requires Built(g) && InGraph(g) && IsGrouping(g, groups) && Walk(DependencyGraph(g), p)
    ensures Walk(WaitGraph(g, groups), p)
  {
    forall i | 0 <= i < |p| - 1 ensures Edge(WaitGraph(g, groups), p[i], p[i + 1]) {
      WaitsForDependencies(g, groups, p[i], p[i + 1]);
    }
  }

  lemma HeldUpIsWaitWalk(g: Dag, groups: GroupMap, x: NodeId, y: NodeId) returns (p: seq<NodeId>)
    requires Built(g) && InGraph(g) && IsGrouping(g, groups) && HeldUpBy(g, groups, x, y)
    ensures |p| >= 2 && WalkFromTo(WaitGraph(g, groups), p, x, y)
  {
    var m :| m in groups[x] && Downstream(g, y, m);
    var q: seq<NodeId> :| WalkFromTo(DependencyGraph(g), q, m, y);
    DependencyWalkIsWaitWalk(g, groups, q);
    assert x in g.nodes by {
      assert FanIn(g, x);
    }
    assert Edge(WaitGraph(g, groups), x, m);
    p := [x] + q;
    Prepend(WaitGraph(g, groups), x, q);
  }

  /** Every DAG the deadlock check rejects really has a cycle of waits. */
  lemma RejectedHasWaitCycle(g: Dag, groups: GroupMap)
    requires Built(g) && InGraph(g) && IsGrouping(g, groups) && Blocked(g, groups)
    ensures !Acyclic(WaitGraph(g, groups))
  {
    var n, m :| n in groups && m in groups[n] && Downstream(g, n, m);
    var p := HeldUpIsWaitWalk(g, groups, n, n);
    assert Cycle(WaitGraph(g, groups), p);
  }

  /** The deadlock check looks for fan-ins that hold up themselves, and for nothing else. */
  lemma CheckSeesOnlySelfLoops(g: Dag, groups: GroupMap)
    ensures Blocked(g, groups) <==> exists x :: Edge(GroupGraph(g, groups), x, x)
  {
    if n, m :| n in groups && m in groups[n] && Downstream(g, n, m) {
      assert HeldUpBy(g, groups, n, n);
      assert Edge(GroupGraph(g, groups), n, n);
    }
    if x :| Edge(GroupGraph(g, groups), x, x) {
      assert HeldUpBy(g, groups, x, x);
    }
  }

  /**
   Following a cycle from its k-th vertex to the next marked position, along edges
   that are all dependencies. Position e is marked, so the search ends.
   */
  lemma {:induction false} NextMarked(g: Dag, p: seq<NodeId>, mark: seq<bool>, e: nat, k: nat) returns (j: nat)
    requires |p| >= 2 && p[0] == p[|p| - 1] && |mark| == |p| - 1 && e < |mark| && mark[e] && k < |p|
    requires forall i :: 0 <= i < |mark| && !mark[i] ==> Edge(DependencyGraph(g), p[i], p[i + 1])
    ensures j < |mark| && mark[j] && Reaches(DependencyGraph(g), p[k], p[j])
    decreases if k <= e then e - k else |p| - k + e + 1
  {
    if k == |p| - 1 {
      j := NextMarked(g, p, mark, e, 0);
    } else if mark[k] {
      j := k;
      ReachesSelf(DependencyGraph(g), p[k]);
    } else {
      j := NextMarked(g, p, mark, e, k + 1);
      ReachesStep(DependencyGraph(g), p[k], p[k + 1], p[j]);
    }
  }

  /** Not every edge of a wait cycle is a dependency. */
  lemma SomeMarked(g: Dag, p: seq<NodeId>, mark: seq<bool>) returns (e: nat)
    requires Acyclic(DependencyGraph(g)) && |p| >= 2 && p[0] == p[|p| - 1] && |mark| == |p| - 1
    requires forall i :: 0 <= i < |mark| && !mark[i] ==> Edge(DependencyGraph(g), p[i], p[i + 1])
    ensures e < |mark| && mark[e]
  {
    if forall i :: 0 <= i < |mark| ==> !mark[i] {
      assert Cycle(DependencyGraph(g), p);
      assert false;
    }
    e :| 0 <= e < |mark| && mark[e];
  }

  /** The i-th edge of a wait cycle is there only because of a merge. */
  ghost predicate MergeAdded(g: Dag, p: seq<NodeId>, i: int) {
    0 <= i < |p| - 1 && p[i + 1] !in Deps(g, p[i])
  }

  /** No wait cycle of an accepted DAG has all its merge-added edges pointing into one group. */
  lemma WaitCycleCrossesGroups(g: Dag, groups: GroupMap, p: seq<NodeId>) returns (i: nat, j: nat)
    requires Accepted(g, groups) && Cycle(WaitGraph(g, groups), p)
    ensures MergeAdded(g, p, i) && MergeAdded(g, p, j)
    ensures p[i] in groups && p[j] in groups && groups[p[i]] != groups[p[j]]
  {
    var mark := seq(|p| - 1, k requires 0 <= k < |p| - 1 => p[k + 1] !in Deps(g, p[k]));
    forall k | 0 <= k < |mark| ensures Edge(WaitGraph(g, groups), p[k], p[k + 1]) {
    }
    i := SomeMarked(g, p, mark);
    j := NextMarked(g, p, mark, i, i + 1);
    assert Edge(WaitGraph(g, groups), p[i], p[i + 1]) && Edge(WaitGraph(g, groups), p[j], p[j + 1]);
    if groups[p[i]] == groups[p[j]] {
      assert p[i + 1] in groups[p[j]] && Downstream(g, p[j], p[i + 1]);
      assert false;
    }
  }

  /**
   The exact condition: the waits are free of cycles if and only if no chain of
   fan-ins, each held up by the next, closes. The deadlock check tests chains of
   length one.
   */
  lemma DeadlockFreeIff(g: Dag, groups: GroupMap)
    requires Built(g) && InGraph(g) && Acyclic(DependencyGraph(g)) && IsGrouping(g, groups)
    ensures Acyclic(WaitGraph(g, groups)) <==> Acyclic(GroupGraph(g, groups))
  {
    if Acyclic(WaitGraph(g, groups)) {
      forall x, y | Edge(GroupGraph(g, groups), x, y)
        ensures exists p: seq<NodeId> :: |p| >= 2 && WalkFromTo(WaitGraph(g, groups), p, x, y)
      {
        var p := HeldUpIsWaitWalk(g, groups, x, y);
      }
      ExpandedCycle(GroupGraph(g, groups), WaitGraph(g, groups));
    }
    if p: seq<NodeId> :| Cycle(WaitGraph(g, groups), p) {
      var c := WaitCycleHoldsUp(g, groups, p);
    }
  }

  lemma NextFanIn(g: Dag, groups: GroupMap, p: seq<NodeId>, mark: seq<bool>, e: nat, i: nat) returns (j: nat)
    requires Cycle(WaitGraph(g, groups), p) && |mark| == |p| - 1 && e < |mark| && i < |mark| && mark[e] && mark[i]
    requires forall k :: 0 <= k < |mark| ==> (mark[k] <==> p[k] in groups)
    ensures j < |mark| && mark[j] && HeldUpBy(g, groups, p[i], p[j])
  {
    forall k | 0 <= k < |mark| ensures Edge(WaitGraph(g, groups), p[k], p[k + 1]) {
    }
    j := NextMarked(g, p, mark, e, i + 1);
    assert Edge(WaitGraph(g, groups), p[i], p[i + 1]);
    assert p[i + 1] in groups[p[i]] && Downstream(g, p[j], p[i + 1]);
  }

  /** The positions of a wait cycle at which a fan-in waits; there is one. */
  lemma MarkFanIns(g: Dag, groups: GroupMap, p: seq<NodeId>) returns (mark: seq<bool>, e: nat)
    requires Acyclic(DependencyGraph(g)) && Cycle(WaitGraph(g, groups), p)
    ensures |mark| == |p| - 1 && e < |mark| && mark[e]
    ensures forall k :: 0 <= k < |mark| ==> (mark[k] <==> p[k] in groups)
  {
    mark := seq(|p| - 1, k requires 0 <= k < |p| - 1 => p[k] in groups);
    forall k | 0 <= k < |mark| ensures Edge(WaitGraph(g, groups), p[k], p[k + 1]) {
    }
    e := SomeMarked(g, p, mark);
  }

  /** The fan-ins on a wait cycle hold each other up in a circle. */
  lemma WaitCycleHoldsUp(g: Dag, groups: GroupMap, p: seq<NodeId>) returns (c: seq<NodeId>)
    requires Built(g) && InGraph(g) && Acyclic(DependencyGraph(g)) && IsGrouping(g, groups)
    requires Cycle(WaitGraph(g, groups), p)
    ensures Cycle(GroupGraph(g, groups), c)
  {
    var mark, e := MarkFanIns(g, groups, p);
    var s := set x | x in p && x in groups;
    assert p[e] in s;
    forall x | x in s ensures x in GroupGraph(g, groups) && GroupGraph(g, groups)[x] * s != {} {
      var y := HeldUpOnCycle(g, groups, p, mark, e, x);
      HeldUpInside(g, groups, x, y, s);
    }
    c := TrappedHasCycle(GroupGraph(g, groups), s);
  }

  lemma HeldUpInside(g: Dag, groups: GroupMap, x: NodeId, y: NodeId, s: set<NodeId>)
    requires x in groups && y in groups && HeldUpBy(g, groups, x, y) && y in s
    ensures x in GroupGraph(g, groups) && GroupGraph(g, groups)[x] * s != {}
  {
    assert y in GroupGraph(g, groups)[x] * s;
  }

  lemma HeldUpOnCycle(g: Dag, groups: GroupMap, p: seq<NodeId>, mark: seq<bool>, e: nat, x: NodeId) returns (y: NodeId)
    requires Cycle(WaitGraph(g, groups), p) && |mark| == |p| - 1 && e < |mark| && mark[e] && x in p && x in groups
    requires forall k :: 0 <= k < |mark| ==> (mark[k] <==> p[k] in groups)
    ensures y in p && y in groups && HeldUpBy(g, groups, x, y)
  {
    var i :| 0 <= i < |p| && p[i] == x;
    var j := NextFanIn(g, groups, p, mark, e, if i == |p| - 1 then 0 else i);
    y := p[j];
  }

  /** The node's group is wider than its own dependencies. */
  ghost predicate Widened(g: Dag, groups: GroupMap, n: NodeId) {
    n in groups && exists m :: m in groups[n] && m !in Deps(g, n)
  }

  /** A condition easy to check beforehand: merging widened at most one group. */
  lemma OneWidenedGroupIsSafe(g: Dag, groups: GroupMap)
    requires Accepted(g, groups)
    requires forall a, b :: Widened(g, groups, a) && Widened(g, groups, b) ==> groups[a] == groups[b]
    ensures Acyclic(WaitGraph(g, groups))
  {
    forall p: seq<NodeId> | Cycle(WaitGraph(g, groups), p) ensures false {
      var i, j := WaitCycleCrossesGroups(g, groups, p);
      assert Edge(WaitGraph(g, groups), p[i], p[i + 1]) && Edge(WaitGraph(g, groups), p[j], p[j + 1]);
      assert Widened(g, groups, p[i]) && Widened(g, groups, p[j]);
    }
  }
}
