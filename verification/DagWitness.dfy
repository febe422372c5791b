/**
 A graph that validate() accepts and whose rows can never all finish. The deadlock check
 looks at one group at a time; here two merged groups hold each other up.

   a, b, c, d       no dependencies
   w1(a, b)         w2(c, d)
   x(w2)            y(w1)
   v1(b, x)         v2(d, y)

 The groups merge to {a, b, x} and {c, d, y}: w1 waits for x, x for w2, w2 for y, y for w1.
 */
module DagWitness {
  import opened Digraph
  import opened DagModel
  import opened Downstreams
  import opened UnionFind
  import opened Groups
  import opened WaitGraphs
  import opened Lowering
  import opened Execution
  import opened DagRuns

  /** a, b, c, d, w1, w2, x, y, v1, v2 are nodes 0 to 9. */
  function DepsOf(n: NodeId): seq<NodeId> {
    if n.uuid == 4 then [NodeId(0), NodeId(1)]
    else if n.uuid == 5 then [NodeId(2), NodeId(3)]
    else if n.uuid == 6 then [NodeId(5)]
    else if n.uuid == 7 then [NodeId(4)]
    else if n.uuid == 8 then [NodeId(1), NodeId(6)]
    else if n.uuid == 9 then [NodeId(3), NodeId(7)]
    else []
  }

  function TwoGroups(): Dag {
    var nodes := seq(10, i requires 0 <= i < 10 => NodeId(i));
    Dag(nodes, map n | n in nodes :: DepsOf(n), {})
  }

  predicate Waiter(n: NodeId) {
    n.uuid == 4 || n.uuid == 5 || n.uuid == 8 || n.uuid == 9
  }

  /** {a, b, x} and {c, d, y} */
  predicate InFirst(m: NodeId) {
    m.uuid == 0 || m.uuid == 1 || m.uuid == 6
  }

  predicate InSecond(m: NodeId) {
    m.uuid == 2 || m.uuid == 3 || m.uuid == 7
  }

  /** The graph above, as facts about it. */
  ghost predicate Shape(g: Dag) {
    && Built(g) && g.identified == {}
    && (forall n :: n in g.nodes <==> n.uuid < 10)
    && (forall n :: Deps(g, n) == DepsOf(n))
  }

  ghost predicate RootShape(root: Parents) {
    && (forall m :: m in root <==> InFirst(m) || InSecond(m))
    && (forall m :: InFirst(m) ==> m in root && root[m] == NodeId(0))
    && (forall m :: InSecond(m) ==> m in root && root[m] == NodeId(2))
  }

  function TwoRoots(): Parents {
    map n | n in TwoGroups().nodes && (InFirst(n) || InSecond(n)) :: if InFirst(n) then NodeId(0) else NodeId(2)
  }

  lemma ItHasThatShape()
    ensures Shape(TwoGroups()) && RootShape(TwoRoots())
  {
    var nodes := TwoGroups().nodes;
    forall n: NodeId | n.uuid < 10 ensures n in nodes {
      assert nodes[n.uuid] == n;
    }
  }

  lemma DepsOfAreOlder(n: NodeId)
    ensures forall d :: d in DepsOf(n) ==> d.uuid < n.uuid < 10
    ensures Distinct(DepsOf(n))
  {
  }

  lemma ItIsAcyclic(g: Dag)
    requires Shape(g)
    ensures InGraph(g) && DistinctDeps(g) && Acyclic(DependencyGraph(g))
  {
    forall n ensures Distinct(Deps(g, n)) && forall d :: d in Deps(g, n) ==> d.uuid < n.uuid < 10 {
      DepsOfAreOlder(n);
      assert Deps(g, n) == DepsOf(n);
    }
    var rank := map n: NodeId | n in g.nodes :: n.uuid;
    forall n, d | Edge(DependencyGraph(g), n, d) ensures n in rank && d in rank && rank[d] < rank[n] {
      assert d in Deps(g, n);
    }
    RankedIsAcyclic(DependencyGraph(g), rank);
  }

  lemma WaitersAreFanIns(g: Dag, n: NodeId)
    requires Shape(g)
    ensures FanIn(g, n) <==> Waiter(n)
    ensures Waiter(n) ==> Deps(g, n) == DepsOf(n) && |DepsOf(n)| == 2 && DepsOf(n)[1] in Deps(g, n)
  {
    assert Deps(g, n) == DepsOf(n);
    assert n in g.nodes <==> n.uuid < 10;
  }

  lemma RootsAreFinest(g: Dag, root: Parents)
    requires Shape(g) && RootShape(root)
    ensures Finest(g, root)
  {
    forall n, a | FanIn(g, n) && a in Deps(g, n) ensures TaggedAlike(root, a, Deps(g, n)[0]) {
      WaitersAreFanIns(g, n);
    }
    forall tag: Parents | KeepsTogether(g, tag) ensures Refines(root, tag) {
      SecondIsTaggedAlike(g, tag, NodeId(4));
      SecondIsTaggedAlike(g, tag, NodeId(5));
      SecondIsTaggedAlike(g, tag, NodeId(8));
      SecondIsTaggedAlike(g, tag, NodeId(9));
    }
  }

  lemma SecondIsTaggedAlike(g: Dag, tag: Parents, n: NodeId)
    requires Shape(g) && KeepsTogether(g, tag) && Waiter(n)
    ensures |DepsOf(n)| == 2 && TaggedAlike(tag, DepsOf(n)[1], DepsOf(n)[0])
  {
    WaitersAreFanIns(g, n);
  }

  predicate InGroupOf(n: NodeId, m: NodeId) {
    if n.uuid == 4 || n.uuid == 8 then InFirst(m) else InSecond(m)
  }

  lemma ItsGroups(g: Dag, root: Parents, n: NodeId)
    requires Shape(g) && RootShape(root)
    ensures n in GroupsOf(g, root) <==> Waiter(n)
    ensures Waiter(n) ==> forall m :: m in GroupsOf(g, root)[n] <==> InGroupOf(n, m)
  {
    WaitersAreFanIns(g, n);
    if Waiter(n) {
      var first := DepsOf(n)[0];
      assert InGroupOf(n, first) && RootOf(root, first) == if InFirst(first) then NodeId(0) else NodeId(2);
      forall m ensures m in GroupsOf(g, root)[n] <==> InGroupOf(n, m) {
        assert m in root && root[m] == RootOf(root, first) <==> InGroupOf(n, m);
        assert m in g.nodes <==> m.uuid < 10;
      }
    }
  }

  /** Everything downstream of each of the four waiters. */
  function Below(n: NodeId): set<NodeId> {
    if n.uuid == 4 then {n, NodeId(7), NodeId(9)} else if n.uuid == 5 then {n, NodeId(6), NodeId(8)} else {n}
  }

  lemma BelowStep(n: NodeId, d: NodeId, k: NodeId)
    requires Waiter(n) && d in Below(n) && d in DepsOf(k)
    ensures k in Below(n)
  {
    assert d == DepsOf(k)[0] || d == DepsOf(k)[|DepsOf(k)| - 1];
  }

  lemma BelowIsClosed(g: Dag, n: NodeId)
    requires Shape(g) && Waiter(n)
    ensures ClosedBut(g, Below(n), {})
  {
    forall d, k | d in Below(n) && k in g.nodes && d in Deps(g, k) ensures k in Below(n) {
      BelowStep(n, d, k);
    }
  }

  lemma NotDownstream(g: Dag, closed: set<NodeId>, n: NodeId, m: NodeId)
    requires ClosedBut(g, closed, {}) && n in closed && m !in closed
    ensures !Downstream(g, n, m)
  {
    if p: seq<NodeId> :| WalkFromTo(DependencyGraph(g), p, m, n) {
      ClosureCatches(g, closed, p);
    }
  }

  lemma GroupsMissBelow(n: NodeId, m: NodeId)
    requires Waiter(n) && InGroupOf(n, m)
    ensures m !in Below(n) && n in Below(n)
  {
  }

  lemma ItIsNotBlocked(g: Dag, root: Parents, groups: GroupMap)
    requires Shape(g) && RootShape(root) && groups == GroupsOf(g, root)
    ensures !Blocked(g, groups)
  {
    forall n, m | n in groups && m in groups[n] ensures !Downstream(g, n, m) {
      ItsGroups(g, root, n);
      GroupsMissBelow(n, m);
      BelowIsClosed(g, n);
      NotDownstream(g, Below(n), n, m);
    }
  }

  /** validate() accepts the graph, every check included. */
  lemma ItIsAccepted(g: Dag, root: Parents)
    requires Shape(g) && RootShape(root)
    ensures Execution.Valid(g) && DistinctDeps(g) && Accepted(g, GroupsOf(g, root))
  {
    ItIsAcyclic(g);
    RootsAreFinest(g, root);
    ItIsNotBlocked(g, root, GroupsOf(g, root));
    forall groups | IsGrouping(g, groups) ensures !Blocked(g, groups) {
      GroupingIsUnique(g, groups, GroupsOf(g, root));
    }
  }

  lemma ItWaits(g: Dag, root: Parents, n: NodeId, m: NodeId)
    requires Shape(g) && RootShape(root) && n.uuid < 10
    requires if Waiter(n) then InGroupOf(n, m) else DepsOf(n) == [m]
    ensures Edge(WaitGraph(g, GroupsOf(g, root)), n, m)
  {
    ItsGroups(g, root, n);
    assert n in g.nodes && Deps(g, n) == DepsOf(n);
    if !Waiter(n) {
      assert DepsOf(n)[0] == m;
    }
  }

  lemma ItWaitsInACircle(g: Dag, root: Parents, groups: GroupMap)
    requires Shape(g) && RootShape(root) && groups == GroupsOf(g, root)
    ensures !Acyclic(WaitGraph(g, groups))
  {
    var w1, x, w2, y := NodeId(4), NodeId(6), NodeId(5), NodeId(7);
    ItWaits(g, root, w1, x);
    ItWaits(g, root, x, w2);
    ItWaits(g, root, w2, y);
    ItWaits(g, root, y, w1);
    FourEdgesClose(WaitGraph(g, groups), w1, x, w2, y);
  }

  /** Accepted and executed, and no run of wakes, crashes, cancels, retries and deletes leaves every job finished. */
  lemma ValidationDoesNotPreventWedging(groups: GroupMap, nodeToJob: map<NodeId, JobId>, rows: Rows)
    requires IsGrouping(TwoGroups(), groups) && Lowered(TwoGroups(), groups, nodeToJob, rows)
    ensures Execution.Valid(TwoGroups()) && DistinctDeps(TwoGroups()) && !CanComplete(rows)
  {
    ItHasThatShape();
    ItIsWedged(TwoGroups(), TwoRoots(), groups, nodeToJob, rows);
  }

  lemma ItIsWedged(g: Dag, root: Parents, groups: GroupMap, nodeToJob: map<NodeId, JobId>, rows: Rows)
    requires Shape(g) && RootShape(root) && IsGrouping(g, groups) && Lowered(g, groups, nodeToJob, rows)
    ensures Execution.Valid(g) && DistinctDeps(g) && !CanComplete(rows)
  {
    ItIsAccepted(g, root);
    ItWaitsInACircle(g, root, GroupsOf(g, root));
    GroupingIsUnique(g, groups, GroupsOf(g, root));
    LoweredIsGrounded(g, groups, nodeToJob, rows);
    SameCycles(g, groups, nodeToJob, rows);
    RowsCompleteIff(rows);
  }
}
