/**
 execute(): writing the validated graph as job rows. A row can wait for one job or for
 one run_group, and carries at most one run_group itself.
 */
module Lowering {
  import opened Digraph
  import opened DagModel
  import opened Levels
  import opened Groups
  import opened WaitGraphs
  import opened Wrappers

  datatype JobId = JobId(number: nat)

  /** A jorb row: what it runs (the node stands for job_class and kwargs) and its wiring columns. */
  datatype Row = Row(payload: NodeId, waitforJob: Option<JobId>, waitforGroup: Option<JobId>, runGroup: Option<JobId>)

  type Rows = map<JobId, Row>

  /** The dictionaries execute() fills, the rows written so far, and the id sequence. */
  datatype Wiring = Wiring(
    nodeToJob: map<NodeId, JobId>,
    groupId: map<NodeId, JobId>,
    groupMembers: map<NodeId, seq<JobId>>,
    edges: seq<(JobId, JobId)>,
    rows: Rows,
    nextId: nat)

  // ------------------------------------------------------------------- the group keys

  /** group_key: every member of every group, mapped to its group's first member. */
  ghost predicate KeysGroups(groups: GroupMap, groupKey: map<NodeId, NodeId>) {
    && (forall n, m :: n in groups && m in groups[n] ==> m in groupKey && groups[n] != [] && groupKey[m] == groups[n][0])
    && (forall m :: m in groupKey ==> exists n :: n in groups && m in groups[n])
  }

  method GroupKeys(ghost g: Dag, groups: GroupMap) returns (groupKey: map<NodeId, NodeId>)
    requires GroupFacts(g, groups)
    ensures KeysGroups(groups, groupKey)
  {
    groupKey := map[];
    var todo := groups.Keys;
    while todo != {}
      invariant todo <= groups.Keys
      invariant forall n, m :: n in groups && n !in todo && m in groups[n] ==>
        m in groupKey && groups[n] != [] && groupKey[m] == groups[n][0]
      invariant forall m :: m in groupKey ==> exists n :: n in groups && m in groups[n]
    {
      var n :| n in todo;
      todo := todo - {n};
      var members := groups[n];
      ghost var before := groupKey;
      for i := 0 to |members|
        invariant forall m :: m in groupKey <==> m in before || m in members[..i]
        invariant forall m :: m in groupKey ==> groupKey[m] == if m in members[..i] then members[0] else before[m]
      {
        assert members[..i + 1] == members[..i] + [members[i]];
        groupKey := groupKey[members[i] := members[0]];
      }
      assert members[..|members|] == members;
    }
  }

  // ------------------------------------------------------------- what the wiring keeps

  ghost predicate JobsMatch(w: Wiring) {
    && (forall n :: n in w.nodeToJob ==> w.nodeToJob[n] in w.rows && w.rows[w.nodeToJob[n]].payload == n)
    && (forall j :: j in w.rows ==>
          j.number < w.nextId && w.rows[j].payload in w.nodeToJob && w.nodeToJob[w.rows[j].payload] == j)
  }

  ghost predicate WaitsMatch(g: Dag, groupKey: map<NodeId, NodeId>, w: Wiring, row: Row) {
    var deps := Deps(g, row.payload);
    if deps == [] then
      row.waitforJob == None && row.waitforGroup == None
    else if |deps| == 1 then
      && deps[0] in w.nodeToJob
      && row.waitforJob == Some(w.nodeToJob[deps[0]]) && row.waitforGroup == None
    else
      && deps[0] in groupKey && groupKey[deps[0]] in w.groupId
      && row.waitforJob == None && row.waitforGroup == Some(w.groupId[groupKey[deps[0]]])
  }

  /** Job j runs a member of the group keyed k. */
  ghost predicate RunsMember(groupKey: map<NodeId, NodeId>, w: Wiring, j: JobId, k: NodeId) {
    j in w.rows && w.rows[j].payload in groupKey && groupKey[w.rows[j].payload] == k
  }

  ghost predicate GroupsMatch(groupKey: map<NodeId, NodeId>, w: Wiring) {
    && w.groupId.Keys == w.groupMembers.Keys
    && (forall k :: k in w.groupId ==> RunsMember(groupKey, w, w.groupId[k], k))
    && (forall k, j :: k in w.groupMembers ==> (j in w.groupMembers[k] <==> RunsMember(groupKey, w, j, k)))
    && (forall j :: j in w.rows && w.rows[j].payload in groupKey ==> groupKey[w.rows[j].payload] in w.groupId)
  }

  /** jorb_dependencies holds exactly the depends_on relation, each pair once. */
  ghost predicate EdgesMatch(g: Dag, w: Wiring) {
    && Distinct(w.edges)
    && forall a, b :: (a, b) in w.edges <==>
         a in w.rows && b in w.rows && w.rows[b].payload in Deps(g, w.rows[a].payload)
  }

  ghost predicate Wired(g: Dag, groupKey: map<NodeId, NodeId>, w: Wiring) {
    && JobsMatch(w)
    && (forall j {:trigger WaitsMatch(g, groupKey, w, w.rows[j])} :: j in w.rows ==> WaitsMatch(g, groupKey, w, w.rows[j]))
    && GroupsMatch(groupKey, w)
    && EdgesMatch(g, w)
    && (forall j :: j in w.rows ==> w.rows[j].runGroup == None)
    && forall n {:trigger DepsPlaced(g, w, n)} :: n in w.nodeToJob ==> DepsPlaced(g, w, n)
  }

  ghost predicate DepsPlaced(g: Dag, w: Wiring, n: NodeId) {
    forall d :: d in Deps(g, n) ==> d in w.nodeToJob
  }

  // ------------------------------------------------------------------------- one node

  method WaitOptions(g: Dag, groupKey: map<NodeId, NodeId>, w: Wiring, node: NodeId)
    returns (waitforJob: Option<JobId>, waitforGroup: Option<JobId>)
    requires Wired(g, groupKey, w) && (forall d :: d in Deps(g, node) ==> d in w.nodeToJob)
    requires |Deps(g, node)| > 1 ==> Deps(g, node)[0] in groupKey
    ensures WaitsMatch(g, groupKey, w, Row(node, waitforJob, waitforGroup, None))
  {
    waitforJob, waitforGroup := None, None;
    var deps := Deps(g, node);
    if |deps| == 1 {
      waitforJob := Some(w.nodeToJob[deps[0]]);
    } else if deps != [] {
      // The first dependency has its row already, and with it came the group's id.
      assert w.rows[w.nodeToJob[deps[0]]].payload == deps[0];
      var key := groupKey[deps[0]];
      waitforGroup := Some(w.groupId[key]);
    }
  }

  /** What execute() does to its state for one node; the id is the next one the sequence hands out. */
  function Added(g: Dag, groupKey: map<NodeId, NodeId>, w: Wiring, id: JobId, row: Row): Wiring
    requires forall d :: d in Deps(g, row.payload) ==> d in w.nodeToJob
    requires w.groupId.Keys == w.groupMembers.Keys
  {
    var node := row.payload;
    var deps := Deps(g, node);
    var w1 := w.(
      nodeToJob := w.nodeToJob[node := id],
      edges := w.edges + seq(|deps|, i requires 0 <= i < |deps| => (id, w.nodeToJob[deps[i]])),
      rows := w.rows[id := row],
      nextId := id.number + 1);
    if node !in groupKey then w1 else
      var key := groupKey[node];
      w1.(
        groupId := if key in w.groupId then w.groupId else w.groupId[key := id],
        groupMembers := w.groupMembers[key := (if key in w.groupMembers then w.groupMembers[key] else []) + [id]])
  }

  /** The node is new, its id unused, its dependencies placed, and its row waits for the right thing. */
  ghost predicate CanAdd(g: Dag, groupKey: map<NodeId, NodeId>, w: Wiring, id: JobId, row: Row) {
    && Wired(g, groupKey, w)
    && row.payload !in w.nodeToJob && id.number >= w.nextId
    && (forall d :: d in Deps(g, row.payload) ==> d in w.nodeToJob)
    && Distinct(Deps(g, row.payload))
    && WaitsMatch(g, groupKey, w, row)
    && row.runGroup == None
  }

  lemma AddKeepsJobs(g: Dag, groupKey: map<NodeId, NodeId>, w: Wiring, id: JobId, row: Row)
    requires CanAdd(g, groupKey, w, id, row)
    ensures JobsMatch(Added(g, groupKey, w, id, row)) && id !in w.rows
  {
  }

  lemma AddKeepsWaits(g: Dag, groupKey: map<NodeId, NodeId>, w: Wiring, id: JobId, row: Row)
    requires CanAdd(g, groupKey, w, id, row)
    ensures forall j :: j in w.rows || j == id ==>
      WaitsMatch(g, groupKey, Added(g, groupKey, w, id, row), Added(g, groupKey, w, id, row).rows[j])
  {
    var w' := Added(g, groupKey, w, id, row);
    forall j | j in w.rows || j == id ensures WaitsMatch(g, groupKey, w', w'.rows[j]) {
      var r := if j == id then row else w.rows[j];
      assert WaitsMatch(g, groupKey, w, r);
      assert r.payload != row.payload || j == id;
    }
  }

  lemma RunsMemberStep(g: Dag, groupKey: map<NodeId, NodeId>, w: Wiring, id: JobId, row: Row, j: JobId, k: NodeId)
    requires CanAdd(g, groupKey, w, id, row)
    ensures RunsMember(groupKey, Added(g, groupKey, w, id, row), j, k) <==>
      RunsMember(groupKey, w, j, k) || (j == id && row.payload in groupKey && groupKey[row.payload] == k)
    ensures !RunsMember(groupKey, w, id, k)
  {
  }

  lemma MembersStep(g: Dag, groupKey: map<NodeId, NodeId>, w: Wiring, id: JobId, row: Row, j: JobId, k: NodeId)
    requires CanAdd(g, groupKey, w, id, row) && k in Added(g, groupKey, w, id, row).groupMembers
    ensures var w' := Added(g, groupKey, w, id, row);
      j in w'.groupMembers[k] <==> RunsMember(groupKey, w', j, k)
  {
    RunsMemberStep(g, groupKey, w, id, row, j, k);
    if k !in w.groupMembers {
      assert !RunsMember(groupKey, w, j, k);
    }
  }

  lemma GroupIdsStep(g: Dag, groupKey: map<NodeId, NodeId>, w: Wiring, id: JobId, row: Row)
    requires CanAdd(g, groupKey, w, id, row)
    ensures var w' := Added(g, groupKey, w, id, row);
      && w'.groupId.Keys == w'.groupMembers.Keys
      && (forall k :: k in w'.groupId ==> RunsMember(groupKey, w', w'.groupId[k], k))
  {
    var w' := Added(g, groupKey, w, id, row);
    forall k | k in w'.groupId ensures RunsMember(groupKey, w', w'.groupId[k], k) {
      RunsMemberStep(g, groupKey, w, id, row, w'.groupId[k], k);
    }
  }

  lemma EveryMemberHasAnId(g: Dag, groupKey: map<NodeId, NodeId>, w: Wiring, id: JobId, row: Row)
    requires CanAdd(g, groupKey, w, id, row)
    ensures var w' := Added(g, groupKey, w, id, row);
      forall j :: j in w'.rows && w'.rows[j].payload in groupKey ==> groupKey[w'.rows[j].payload] in w'.groupId
  {
  }

  lemma AddKeepsGroups(g: Dag, groupKey: map<NodeId, NodeId>, w: Wiring, id: JobId, row: Row)
    requires CanAdd(g, groupKey, w, id, row)
    ensures GroupsMatch(groupKey, Added(g, groupKey, w, id, row))
  {
    var w' := Added(g, groupKey, w, id, row);
    GroupIdsStep(g, groupKey, w, id, row);
    EveryMemberHasAnId(g, groupKey, w, id, row);
    forall k, j | k in w'.groupMembers ensures j in w'.groupMembers[k] <==> RunsMember(groupKey, w', j, k) {
      MembersStep(g, groupKey, w, id, row, j, k);
    }
  }

  lemma AddKeepsEdges(g: Dag, groupKey: map<NodeId, NodeId>, w: Wiring, id: JobId, row: Row)
    requires CanAdd(g, groupKey, w, id, row)
    ensures EdgesMatch(g, Added(g, groupKey, w, id, row))
  {
    var w' := Added(g, groupKey, w, id, row);
    var deps := Deps(g, row.payload);
    var added := seq(|deps|, i requires 0 <= i < |deps| => (id, w.nodeToJob[deps[i]]));
    assert id !in w.rows && w'.edges == w.edges + added;
    forall i, j | 0 <= i < j < |added| ensures added[i] != added[j] {
      assert deps[i] != deps[j];
      assert w.rows[w.nodeToJob[deps[i]]].payload == deps[i];
    }
    forall e | e in w.edges ensures e.0 != id {
      assert (e.0, e.1) in w.edges;
    }
    forall i, j | 0 <= i < j < |w'.edges| ensures w'.edges[i] != w'.edges[j] {
      if i < |w.edges| && j >= |w.edges| {
        assert w'.edges[i] in w.edges;
      }
    }
    forall a, b
      ensures (a, b) in w'.edges <==> a in w'.rows && b in w'.rows && w'.rows[b].payload in Deps(g, w'.rows[a].payload)
    {
      FreshEdge(g, groupKey, w, id, row, a, b);
    }
  }

  lemma FreshEdge(g: Dag, groupKey: map<NodeId, NodeId>, w: Wiring, id: JobId, row: Row, a: JobId, b: JobId)
    requires CanAdd(g, groupKey, w, id, row)
    ensures var w' := Added(g, groupKey, w, id, row);
      (a, b) in w'.edges <==> a in w'.rows && b in w'.rows && w'.rows[b].payload in Deps(g, w'.rows[a].payload)
  {
    var w' := Added(g, groupKey, w, id, row);
    if a == id {
      EdgeFromNew(g, groupKey, w, id, row, b);
    } else {
      assert (a, b) in w'.edges <==> (a, b) in w.edges;
      if b == id && a in w.rows {
        assert DepsPlaced(g, w, w.rows[a].payload);
        assert row.payload !in Deps(g, w.rows[a].payload);
      }
    }
  }

  lemma EdgeFromNew(g: Dag, groupKey: map<NodeId, NodeId>, w: Wiring, id: JobId, row: Row, b: JobId)
    requires CanAdd(g, groupKey, w, id, row)
    ensures var w' := Added(g, groupKey, w, id, row);
      (id, b) in w'.edges <==> b in w'.rows && w'.rows[b].payload in Deps(g, row.payload)
  {
    var w' := Added(g, groupKey, w, id, row);
    var deps := Deps(g, row.payload);
    var added := seq(|deps|, i requires 0 <= i < |deps| => (id, w.nodeToJob[deps[i]]));
    assert w'.edges == w.edges + added;
    assert (id, b) !in w.edges;
    if b in w'.rows && w'.rows[b].payload in deps {
      var i :| 0 <= i < |deps| && deps[i] == w'.rows[b].payload;
      assert added[i] == (id, b);
    }
  }

  lemma AddKeepsRest(g: Dag, groupKey: map<NodeId, NodeId>, w: Wiring, id: JobId, row: Row)
    requires CanAdd(g, groupKey, w, id, row)
    ensures var w' := Added(g, groupKey, w, id, row);
      && w'.nodeToJob == w.nodeToJob[row.payload := id] && w'.rows == w.rows[id := row]
      && (forall j :: j in w'.rows ==> w'.rows[j].runGroup == None)
      && (forall n :: n in w'.nodeToJob ==> DepsPlaced(g, w', n))
  {
    var w' := Added(g, groupKey, w, id, row);
    forall n | n in w'.nodeToJob ensures DepsPlaced(g, w', n) {
      assert n != row.payload ==> DepsPlaced(g, w, n);
    }
  }

  lemma AddKeepsWired(g: Dag, groupKey: map<NodeId, NodeId>, w: Wiring, id: JobId, row: Row)
    requires CanAdd(g, groupKey, w, id, row)
    ensures var w' := Added(g, groupKey, w, id, row);
      Wired(g, groupKey, w') && w'.nodeToJob == w.nodeToJob[row.payload := id]
  {
    AddKeepsJobs(g, groupKey, w, id, row);
    AddKeepsWaits(g, groupKey, w, id, row);
    AddKeepsGroups(g, groupKey, w, id, row);
    AddKeepsEdges(g, groupKey, w, id, row);
    AddKeepsRest(g, groupKey, w, id, row);
  }

  // ---------------------------------------------------------------------- all the nodes

  ghost predicate Wireable(g: Dag, groups: GroupMap, levels: seq<seq<NodeId>>) {
    && Built(g) && DistinctDeps(g) && GroupFacts(g, groups)
    && Peeled(g, levels) && Placed(levels) == Elements(g.nodes)
  }

  /** Every fan-in finds its group's key through its first dependency. */
  ghost predicate Keyed(g: Dag, groupKey: map<NodeId, NodeId>) {
    forall n :: FanIn(g, n) ==> Deps(g, n)[0] in groupKey
  }

  lemma FanInsAreKeyed(g: Dag, groups: GroupMap, groupKey: map<NodeId, NodeId>)
    requires GroupFacts(g, groups) && KeysGroups(groups, groupKey)
    ensures Keyed(g, groupKey)
  {
    forall n | FanIn(g, n) ensures Deps(g, n)[0] in groupKey {
      assert Deps(g, n)[0] in groups[n];
    }
  }

  /** One pass of the inner loop: wait options, insert, dictionaries. */
  method WireNode(g: Dag, groupKey: map<NodeId, NodeId>, w: Wiring, node: NodeId) returns (w': Wiring)
    requires Keyed(g, groupKey) && Wired(g, groupKey, w)
    requires node in g.nodes && node !in w.nodeToJob && Ready(g, node, w.nodeToJob.Keys)
    ensures Wired(g, groupKey, w') && w'.nodeToJob.Keys == w.nodeToJob.Keys + {node}
  {
    assert |Deps(g, node)| > 1 ==> FanIn(g, node);
    var waitforJob, waitforGroup := WaitOptions(g, groupKey, w, node);
    var number: nat :| number >= w.nextId;
    var row := Row(node, waitforJob, waitforGroup, None);
    AddKeepsWired(g, groupKey, w, JobId(number), row);
    w' := Added(g, groupKey, w, JobId(number), row);
  }

  lemma InitiallyWired(g: Dag, groupKey: map<NodeId, NodeId>, nextId: nat)
    ensures Wired(g, groupKey, Wiring(map[], map[], map[], [], map[], nextId))
  {
  }

  /** for level in levels: for node in level: ... */
  method WireNodes(g: Dag, groups: GroupMap, groupKey: map<NodeId, NodeId>, levels: seq<seq<NodeId>>, nextId: nat)
    returns (w: Wiring)
    requires Wireable(g, groups, levels) && KeysGroups(groups, groupKey)
    ensures Wired(g, groupKey, w) && w.nodeToJob.Keys == Elements(g.nodes)
  {
    w := Wiring(map[], map[], map[], [], map[], nextId);
    InitiallyWired(g, groupKey, nextId);
    FanInsAreKeyed(g, groups, groupKey);
    for i := 0 to |levels|
      invariant Wired(g, groupKey, w) && w.nodeToJob.Keys == Placed(levels[..i])
    {
      LevelMembers(g, levels, i);
      w := WireLevel(g, groupKey, w, levels[i], Placed(levels[..i]));
    }
    assert levels[..|levels|] == levels;
  }

  lemma ReadyLater(g: Dag, n: NodeId, early: set<NodeId>, late: set<NodeId>)
    requires Ready(g, n, early) && early <= late
    ensures Ready(g, n, late)
  {
  }

  method WireLevel(g: Dag, groupKey: map<NodeId, NodeId>, w0: Wiring, level: seq<NodeId>, ghost placed: set<NodeId>)
    returns (w: Wiring)
    requires Keyed(g, groupKey) && Wired(g, groupKey, w0)
    requires w0.nodeToJob.Keys == placed && Distinct(level)
    requires forall n :: n in level ==> n in g.nodes && n !in placed && Ready(g, n, placed)
    ensures Wired(g, groupKey, w) && w.nodeToJob.Keys == placed + Elements(level)
  {
    w := w0;
    for j := 0 to |level|
      invariant Wired(g, groupKey, w) && w.nodeToJob.Keys == placed + Elements(level[..j])
    {
      assert level[..j + 1] == level[..j] + [level[j]];
      ReadyLater(g, level[j], placed, w.nodeToJob.Keys);
      w := WireNode(g, groupKey, w, level[j]);
    }
    assert level[..|level|] == level;
  }

  /** UPDATE jorb SET run_group, once per group. */
  function StampOf(groupKey: map<NodeId, NodeId>, w: Wiring, row: Row): Row {
    if row.payload in groupKey && groupKey[row.payload] in w.groupId
    then row.(runGroup := Some(w.groupId[groupKey[row.payload]]))
    else row
  }

  /** UPDATE ... WHERE id = ANY(ids) */
  method StampIds(rows0: Rows, ids: seq<JobId>, group: JobId) returns (rows: Rows)
    requires forall j :: j in ids ==> j in rows0
    ensures rows.Keys == rows0.Keys
    ensures forall j :: j in rows ==> rows[j] == if j in ids then rows0[j].(runGroup := Some(group)) else rows0[j]
  {
    rows := rows0;
    for i := 0 to |ids|
      invariant rows.Keys == rows0.Keys
      invariant forall j :: j in rows ==> rows[j] == if j in ids[..i] then rows0[j].(runGroup := Some(group)) else rows0[j]
    {
      assert ids[..i + 1] == ids[..i] + [ids[i]];
      rows := rows[ids[i] := rows[ids[i]].(runGroup := Some(group))];
    }
    assert ids[..|ids|] == ids;
  }

  /** The row belongs to a group whose UPDATE is still to come. */
  ghost predicate Unstamped(groupKey: map<NodeId, NodeId>, row: Row, todo: set<NodeId>) {
    row.payload in groupKey && groupKey[row.payload] in todo
  }

  lemma MembersRun(groupKey: map<NodeId, NodeId>, w: Wiring, k: NodeId)
    requires GroupsMatch(groupKey, w) && k in w.groupMembers
    ensures k in w.groupId && forall j :: j in w.groupMembers[k] <==>
      j in w.rows && w.rows[j].payload in groupKey && groupKey[w.rows[j].payload] == k
  {
    forall j ensures j in w.groupMembers[k] <==> RunsMember(groupKey, w, j, k) {
    }
  }

  method StampGroups(g: Dag, groupKey: map<NodeId, NodeId>, w: Wiring) returns (rows: Rows)
    requires Wired(g, groupKey, w)
    ensures rows.Keys == w.rows.Keys
    ensures forall j :: j in rows ==> rows[j] == StampOf(groupKey, w, w.rows[j])
  {
    rows := w.rows;
    var todo := w.groupMembers.Keys;
    while todo != {}
      invariant todo <= w.groupMembers.Keys && rows.Keys == w.rows.Keys
      invariant forall j :: j in rows && Unstamped(groupKey, w.rows[j], todo) ==> rows[j] == w.rows[j]
      invariant forall j :: j in rows && !Unstamped(groupKey, w.rows[j], todo) ==> rows[j] == StampOf(groupKey, w, w.rows[j])
    {
      var k :| k in todo;
      todo := todo - {k};
      MembersRun(groupKey, w, k);
      rows := StampIds(rows, w.groupMembers[k], w.groupId[k]);
    }
  }
}
