/**
 DAGBuilder: building a graph node by node, validating it, and executing it, with the
 statement of what the written rows amount to.
 */
module Execution {
  import opened Digraph
  import opened DagModel
  import opened CycleSearch
  import opened Levels
  import opened Groups
  import opened WaitGraphs
  import opened Lowering
  import opened Wrappers

  /** By the wake statements: row j is held until row u is finished. */
  ghost predicate WaitsFor(rows: Rows, j: JobId, u: JobId) {
    && j in rows && u in rows
    && (rows[j].waitforJob == Some(u)
        || (rows[j].waitforGroup.Some? && rows[u].runGroup == rows[j].waitforGroup))
  }

  predicate HasWait(row: Row) {
    row.waitforJob.Some? || row.waitforGroup.Some?
  }

  /** One row per node and back. */
  ghost predicate RowPerNode(g: Dag, nodeToJob: map<NodeId, JobId>, rows: Rows) {
    && nodeToJob.Keys == Elements(g.nodes)
    && (forall n :: n in nodeToJob ==> nodeToJob[n] in rows && rows[nodeToJob[n]].payload == n)
    && (forall j :: j in rows ==> rows[j].payload in nodeToJob && nodeToJob[rows[j].payload] == j)
  }

  /** The rows say exactly what the wait graph says. */
  ghost predicate Lowered(g: Dag, groups: GroupMap, nodeToJob: map<NodeId, JobId>, rows: Rows) {
    && RowPerNode(g, nodeToJob, rows)
    && (forall n, m :: n in nodeToJob && m in nodeToJob ==>
          (WaitsFor(rows, nodeToJob[n], nodeToJob[m]) <==> m in WaitSet(g, groups, n)))
    && (forall n :: n in nodeToJob ==> (HasWait(rows[nodeToJob[n]]) <==> Deps(g, n) != []))
    && (forall n :: n in nodeToJob ==> (rows[nodeToJob[n]].waitforGroup.Some? <==> FanIn(g, n)))
    && (forall j :: j in rows ==> !(rows[j].waitforJob.Some? && rows[j].waitforGroup.Some?))
  }

  /** jorb_dependencies is exactly depends_on, on job ids. */
  ghost predicate EdgesAreDependencies(g: Dag, nodeToJob: map<NodeId, JobId>, edges: seq<(JobId, JobId)>) {
    && Distinct(edges)
    && (forall n, d :: n in nodeToJob && d in nodeToJob ==>
          ((nodeToJob[n], nodeToJob[d]) in edges <==> d in Deps(g, n)))
    && (forall e :: e in edges ==> exists n, d :: n in nodeToJob && d in nodeToJob && e == (nodeToJob[n], nodeToJob[d]))
  }

  // ---------------------------------------------------- from the dictionaries to the rows

  ghost predicate Stamped(groupKey: map<NodeId, NodeId>, w: Wiring, rows: Rows) {
    && rows.Keys == w.rows.Keys
    && forall j :: j in rows ==> rows[j] == StampOf(groupKey, w, w.rows[j])
  }

  lemma GroupIdsAreKeys(groupKey: map<NodeId, NodeId>, w: Wiring, k: NodeId, l: NodeId)
    requires GroupsMatch(groupKey, w) && k in w.groupId && l in w.groupId
    ensures w.groupId[k] == w.groupId[l] <==> k == l
  {
    assert RunsMember(groupKey, w, w.groupId[k], k) && RunsMember(groupKey, w, w.groupId[l], l);
  }

  lemma StampedRunGroup(g: Dag, groupKey: map<NodeId, NodeId>, w: Wiring, rows: Rows, m: NodeId)
    requires Wired(g, groupKey, w) && Stamped(groupKey, w, rows) && m in w.nodeToJob
    ensures w.nodeToJob[m] in rows && (m in groupKey ==> groupKey[m] in w.groupId)
    ensures rows[w.nodeToJob[m]].runGroup == if m in groupKey then Some(w.groupId[groupKey[m]]) else None
  {
  }

  lemma StampedWaits(g: Dag, groupKey: map<NodeId, NodeId>, w: Wiring, rows: Rows, n: NodeId)
    requires Wired(g, groupKey, w) && Stamped(groupKey, w, rows) && n in w.nodeToJob
    ensures w.nodeToJob[n] in rows && WaitsMatch(g, groupKey, w, rows[w.nodeToJob[n]]) && rows[w.nodeToJob[n]].payload == n
  {
    assert WaitsMatch(g, groupKey, w, w.rows[w.nodeToJob[n]]);
  }

  lemma KeyMeansGroup(g: Dag, groups: GroupMap, groupKey: map<NodeId, NodeId>, n: NodeId, m: NodeId)
    requires GroupFacts(g, groups) && KeysGroups(groups, groupKey) && FanIn(g, n)
    ensures n in groups
    ensures SameKey(groupKey, m, Deps(g, n)[0]) <==> m in groups[n]
  {
    assert Deps(g, n)[0] in groups[n];
    if SameKey(groupKey, m, Deps(g, n)[0]) {
      var n' :| n' in groups && m in groups[n'];
      assert groups[n'][0] in groups[n'] && groups[n][0] in groups[n];
    }
  }

  ghost predicate SameKey(groupKey: map<NodeId, NodeId>, a: NodeId, b: NodeId) {
    a in groupKey && b in groupKey && groupKey[a] == groupKey[b]
  }

  /** m carries the run_group that fan-in n waits for exactly when it has n's group key. */
  lemma SameGroupId(g: Dag, groupKey: map<NodeId, NodeId>, w: Wiring, rows: Rows, n: NodeId, m: NodeId)
    requires Wired(g, groupKey, w) && Stamped(groupKey, w, rows)
    requires n in w.nodeToJob && m in w.nodeToJob && |Deps(g, n)| > 1
    ensures WaitsFor(rows, w.nodeToJob[n], w.nodeToJob[m]) <==> SameKey(groupKey, m, Deps(g, n)[0])
  {
    StampedWaits(g, groupKey, w, rows, n);
    StampedRunGroup(g, groupKey, w, rows, m);
    if m in groupKey {
      GroupIdsAreKeys(groupKey, w, groupKey[m], groupKey[Deps(g, n)[0]]);
    }
  }

  lemma LowersPlain(g: Dag, groupKey: map<NodeId, NodeId>, w: Wiring, rows: Rows, n: NodeId, m: NodeId)
    requires Wired(g, groupKey, w) && Stamped(groupKey, w, rows)
    requires n in w.nodeToJob && m in w.nodeToJob && |Deps(g, n)| <= 1
    ensures WaitsFor(rows, w.nodeToJob[n], w.nodeToJob[m]) <==> m in Deps(g, n)
  {
    StampedWaits(g, groupKey, w, rows, n);
    StampedWaits(g, groupKey, w, rows, m);
  }

  lemma LowersOne(g: Dag, groups: GroupMap, groupKey: map<NodeId, NodeId>, w: Wiring, rows: Rows, n: NodeId, m: NodeId)
    requires GroupFacts(g, groups) && KeysGroups(groups, groupKey)
    requires Wired(g, groupKey, w) && Stamped(groupKey, w, rows)
    requires n in g.nodes && n in w.nodeToJob && m in w.nodeToJob
    ensures WaitsFor(rows, w.nodeToJob[n], w.nodeToJob[m]) <==> m in WaitSet(g, groups, n)
  {
    if FanIn(g, n) {
      SameGroupId(g, groupKey, w, rows, n, m);
      KeyMeansGroup(g, groups, groupKey, n, m);
    } else {
      LowersPlain(g, groupKey, w, rows, n, m);
      assert n !in groups;
    }
  }

  lemma LowersRow(g: Dag, groupKey: map<NodeId, NodeId>, w: Wiring, rows: Rows)
    requires Wired(g, groupKey, w) && Stamped(groupKey, w, rows) && w.nodeToJob.Keys == Elements(g.nodes)
    ensures RowPerNode(g, w.nodeToJob, rows)
    ensures forall n :: n in w.nodeToJob ==> (HasWait(rows[w.nodeToJob[n]]) <==> Deps(g, n) != [])
    ensures forall n :: n in w.nodeToJob ==> (rows[w.nodeToJob[n]].waitforGroup.Some? <==> FanIn(g, n))
    ensures forall j :: j in rows ==> !(rows[j].waitforJob.Some? && rows[j].waitforGroup.Some?)
  {
    forall j | j in rows
      ensures HasWait(rows[j]) <==> Deps(g, rows[j].payload) != []
      ensures rows[j].waitforGroup.Some? <==> FanIn(g, rows[j].payload)
      ensures !(rows[j].waitforJob.Some? && rows[j].waitforGroup.Some?)
    {
      StampedWaits(g, groupKey, w, rows, w.rows[j].payload);
    }
  }

  lemma LowersAll(g: Dag, groups: GroupMap, groupKey: map<NodeId, NodeId>, w: Wiring, rows: Rows)
    requires GroupFacts(g, groups) && KeysGroups(groups, groupKey)
    requires Wired(g, groupKey, w) && Stamped(groupKey, w, rows) && w.nodeToJob.Keys == Elements(g.nodes)
    ensures Lowered(g, groups, w.nodeToJob, rows)
  {
    LowersRow(g, groupKey, w, rows);
    forall n, m | n in w.nodeToJob && m in w.nodeToJob
      ensures WaitsFor(rows, w.nodeToJob[n], w.nodeToJob[m]) <==> m in WaitSet(g, groups, n)
    {
      LowersOne(g, groups, groupKey, w, rows, n, m);
    }
  }

  lemma EdgesLower(g: Dag, groupKey: map<NodeId, NodeId>, w: Wiring)
    requires Wired(g, groupKey, w)
    ensures EdgesAreDependencies(g, w.nodeToJob, w.edges)
  {
    forall e | e in w.edges
      ensures exists n, d :: n in w.nodeToJob && d in w.nodeToJob && e == (w.nodeToJob[n], w.nodeToJob[d])
    {
      assert (e.0, e.1) in w.edges;
      assert e == (w.nodeToJob[w.rows[e.0].payload], w.nodeToJob[w.rows[e.1].payload]);
    }
  }

  /** Two fan-ins wait for the same run_group exactly when they share a group. */
  lemma RunGroupsAreDistinct(g: Dag, groups: GroupMap, nodeToJob: map<NodeId, JobId>, rows: Rows, a: NodeId, b: NodeId)
    requires Built(g) && InGraph(g) && IsGrouping(g, groups) && Lowered(g, groups, nodeToJob, rows)
    requires FanIn(g, a) && FanIn(g, b)
    requires rows[nodeToJob[a]].waitforGroup.Some? && rows[nodeToJob[b]].waitforGroup.Some?
    ensures a in groups && b in groups
    ensures rows[nodeToJob[a]].waitforGroup == rows[nodeToJob[b]].waitforGroup <==> groups[a] == groups[b]
  {
    GroupHoldsDependencies(g, groups, a);
    GroupHoldsDependencies(g, groups, b);
    var m := Deps(g, a)[0];
    assert m in WaitSet(g, groups, a);
    assert WaitsFor(rows, nodeToJob[a], nodeToJob[m]);
    assert m in WaitSet(g, groups, b) <==> WaitsFor(rows, nodeToJob[b], nodeToJob[m]);
    if m in groups[b] {
      GroupsAreDisjoint(g, groups, a, b, m);
    }
  }

  // ------------------------------------------------------------------------- the builder

  /** What validate() accepts. */
  ghost predicate Valid(g: Dag) {
    && (forall n :: n in g.nodes ==> n !in g.identified)
    && InGraph(g)
    && Acyclic(DependencyGraph(g))
    && forall groups :: IsGrouping(g, groups) ==> !Blocked(g, groups)
  }

  /** validate(): every check in the order the source makes them. */
  method Validate(g: Dag) returns (r: Result<(), DagError>)
    requires Built(g)
    ensures r.Ok? <==> Valid(g)
    ensures r == Err(IdentityOnNode) <==> exists n :: n in g.nodes && n in g.identified
    ensures r == Err(ForeignDependency) ==> !InGraph(g)
    ensures r == Err(CycleFound) ==> InGraph(g) && !Acyclic(DependencyGraph(g))
    ensures r == Err(GroupDeadlock) ==> exists groups :: IsGrouping(g, groups) && !Acyclic(WaitGraph(g, groups))
  {
    for i := 0 to |g.nodes|
      invariant forall k :: 0 <= k < i ==> g.nodes[k] !in g.identified
    {
      if g.nodes[i] in g.identified {
        return Err(IdentityOnNode);
      }
    }
    for i := 0 to |g.nodes|
      invariant forall k, d :: 0 <= k < i && d in Deps(g, g.nodes[k]) ==> d in g.nodes
    {
      var deps := Deps(g, g.nodes[i]);
      for j := 0 to |deps|
        invariant forall k :: 0 <= k < j ==> deps[k] in g.nodes
      {
        if deps[j] !in g.nodes {
          return Err(ForeignDependency);
        }
      }
    }
    var cyclic := FindCycle(g);
    if cyclic {
      return Err(CycleFound);
    }
    var groups := DependencyGroups(g);
    ghost var grouping :| IsGrouping(g, grouping) && groups == if Blocked(g, grouping) then Err(GroupDeadlock) else Ok(grouping);
    forall other | IsGrouping(g, other) ensures other == grouping {
      GroupingIsUnique(g, other, grouping);
    }
    if groups.Err? {
      RejectedHasWaitCycle(g, grouping);
      return Err(GroupDeadlock);
    }
    return Ok(());
  }

  /** What execute() hands back and leaves in the database. */
  datatype Executed = Executed(nodeToJob: map<NodeId, JobId>, rows: Rows, edges: seq<(JobId, JobId)>)

  /** deps[k] is mentioned first at position at[k], and these positions ascend. */
  ghost predicate MentionedAt(deps: seq<NodeId>, mentioned: seq<NodeId>, at: seq<nat>) {
    && |at| == |deps|
    && (forall k :: 0 <= k < |at| ==> at[k] < |mentioned| && mentioned[at[k]] == deps[k] && deps[k] !in mentioned[..at[k]])
    && (forall j, k :: 0 <= j < k < |at| ==> at[j] < at[k])
  }

  ghost predicate InOrderOfMention(deps: seq<NodeId>, mentioned: seq<NodeId>) {
    exists at :: MentionedAt(deps, mentioned, at)
  }

  class DAGBuilder {
    var nodes: seq<NodeId>
    var dependsOn: map<NodeId, seq<NodeId>>
    var identified: set<NodeId>
    /** DAGNode.job_id, once execute() has set it. */
    var jobId: map<NodeId, JobId>

    ghost predicate WellBuilt()
      reads this
    {
      Built(Value()) && DistinctDeps(Value())
    }

    function Value(): Dag
      reads this
    {
      Dag(nodes, dependsOn, identified)
    }

    constructor ()
      ensures WellBuilt() && nodes == [] && jobId == map[]
    {
      nodes, dependsOn, identified, jobId := [], map[], {}, map[];
    }

    /** add(): repeated upstreams are dropped, and a node with an identity_key is refused. */
    method Add(node: NodeId, depends: seq<NodeId>, identity: bool) returns (r: Result<NodeId, DagError>)
      requires WellBuilt() && node !in nodes
      modifies this
      ensures WellBuilt() && jobId == old(jobId) && identified == old(identified)
      ensures r.Err? <==> identity
      ensures identity ==> nodes == old(nodes) && dependsOn == old(dependsOn)
      ensures !identity ==> nodes == old(nodes) + [node] && Elements(Deps(Value(), node)) == Elements(depends)
      ensures !identity ==> InOrderOfMention(Deps(Value(), node), depends)
      ensures forall n :: n in old(nodes) ==> Deps(Value(), n) == Deps(old(Value()), n)
    {
      var deps: seq<NodeId> := [];
      ghost var at: seq<nat> := [];
      for i := 0 to |depends|
        invariant Distinct(deps) && forall d :: d in deps <==> d in depends[..i]
        invariant MentionedAt(deps, depends, at) && forall k :: 0 <= k < |at| ==> at[k] < i
      {
        assert depends[..i + 1] == depends[..i] + [depends[i]];
        if depends[i] !in deps {
          deps, at := deps + [depends[i]], at + [i];
        }
      }
      assert depends[..|depends|] == depends;
      if identity {
        return Err(IdentityOnNode);
      }
      nodes, dependsOn := nodes + [node], dependsOn[node := deps];
      return Ok(node);
    }

    /** execute(): either refuses and writes nothing, or writes rows that wait for exactly what they should. */
    method Execute(nextId: nat) returns (r: Result<Executed, DagError>)
      requires Built(Value())
      modifies this`jobId
      ensures r.Ok? <==> Valid(Value()) && DistinctDeps(Value())
      ensures r.Err? ==> jobId == old(jobId)
      ensures r.Ok? ==> jobId == r.value.nodeToJob && exists groups ::
        Accepted(Value(), groups) && Lowered(Value(), groups, r.value.nodeToJob, r.value.rows)
      ensures r.Ok? ==> EdgesAreDependencies(Value(), r.value.nodeToJob, r.value.edges)
    {
      var g := Value();
      var checked := Validate(g);
      if checked.Err? {
        return Err(checked.error);
      }
      var sorted := TopologicalSort(g);
      if sorted.Err? {
        return Err(sorted.error);
      }
      var grouped := DependencyGroups(g);
      match grouped {
        case Err(error) =>
          return Err(error);
        case Ok(groups) =>
          GroupingFacts(g, groups);
          var done := WriteRows(g, groups, sorted.value, nextId);
          jobId := done.nodeToJob;
          return Ok(done);
      }
    }
  }

  /** The body of execute()'s transaction. */
  method WriteRows(g: Dag, groups: GroupMap, levels: seq<seq<NodeId>>, nextId: nat) returns (e: Executed)
    requires Wireable(g, groups, levels)
    ensures Lowered(g, groups, e.nodeToJob, e.rows)
    ensures EdgesAreDependencies(g, e.nodeToJob, e.edges)
  {
    var groupKey := GroupKeys(g, groups);
    var w := WireNodes(g, groups, groupKey, levels, nextId);
    var rows := StampGroups(g, groupKey, w);
    LowersAll(g, groups, groupKey, w, rows);
    EdgesLower(g, groupKey, w);
    e := Executed(w.nodeToJob, rows, w.edges);
  }
}
