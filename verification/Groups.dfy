/**
 dependency_groups(): merging the dependency sets of fan-in nodes into disjoint wait
 groups, and refusing a graph in which a group holds a node downstream of its waiter.
 */
module Groups {
  import opened Digraph
  import opened DagModel
  import opened UnionFind
  import opened Downstreams
  import opened Wrappers

  type GroupMap = map<NodeId, seq<NodeId>>

  predicate FanIn(g: Dag, n: NodeId) {
    n in g.nodes && |Deps(g, n)| > 1
  }

  /** A labelling that gives all dependencies of any one fan-in the same tag. */
  ghost predicate KeepsTogether(g: Dag, tag: Parents) {
    forall n, a :: FanIn(g, n) && a in Deps(g, n) ==> TaggedAlike(tag, a, Deps(g, n)[0])
  }

  ghost predicate TaggedAlike(tag: Parents, a: NodeId, b: NodeId) {
    a in tag && b in tag && tag[a] == tag[b]
  }

  /** Every node carries the tag of its root, so nodes with one root carry one tag. */
  ghost predicate Refines(root: Parents, tag: Parents) {
    forall a :: a in root ==> TaggedAlike(tag, root[a], a)
  }

  /** Nodes are only merged when every labelling that keeps fan-ins together merges them. */
  ghost predicate MergesNothingElse(g: Dag, root: Parents) {
    forall tag: Parents :: KeepsTogether(g, tag) ==> Refines(root, tag)
  }

  /** The finest partition that keeps each fan-in's dependencies together. */
  ghost predicate Finest(g: Dag, root: Parents) {
    && KeepsTogether(g, root)
    && MergesNothingElse(g, root)
  }

  /** [node for node in self.nodes if node in seen] */
  function Select(nodes: seq<NodeId>, seen: set<NodeId>): (r: seq<NodeId>)
    ensures forall n :: n in r <==> n in nodes && n in seen
  {
    if nodes == [] then [] else
      (if nodes[0] in seen then [nodes[0]] else []) + Select(nodes[1..], seen)
  }

  ghost function ClassOf(root: Parents, r: NodeId): set<NodeId> {
    set x | x in root && root[x] == r
  }

  function RootOf(root: Parents, x: NodeId): NodeId {
    if x in root then root[x] else x
  }

  ghost function GroupsOf(g: Dag, root: Parents): GroupMap {
    map n | n in g.nodes && FanIn(g, n) :: Select(g.nodes, ClassOf(root, RootOf(root, Deps(g, n)[0])))
  }

  /** What dependency_groups() computes before the deadlock check. */
  ghost predicate IsGrouping(g: Dag, groups: GroupMap) {
    exists root: Parents :: Finest(g, root) && groups == GroupsOf(g, root)
  }

  /** Some fan-in's group holds a node that cannot finish before the fan-in does. */
  ghost predicate Blocked(g: Dag, groups: GroupMap) {
    exists n, m :: n in groups && m in groups[n] && Downstream(g, n, m)
  }

  // ---------------------------------------------------------------- the union loop

  lemma PlantRefines(root: Parents, tag: Parents, a: NodeId)
    requires Refines(root, tag) && a in tag
    ensures Refines(WithNode(root, a), tag)
  {
  }

  lemma MergeRefines(root: Parents, tag: Parents, a: NodeId, b: NodeId)
    requires Refines(root, tag) && a in root && b in root && TaggedAlike(tag, a, b)
    ensures Refines(Merged(root, a, b), tag)
  {
    var r' := Merged(root, a, b);
    forall x | x in r' ensures TaggedAlike(tag, r'[x], x) {
      assert TaggedAlike(tag, root[x], x) && TaggedAlike(tag, root[a], a) && TaggedAlike(tag, root[b], b);
    }
  }

  ghost function Joined(root: Parents, a: NodeId, b: NodeId): Parents {
    Merged(WithNode(WithNode(root, a), b), a, b)
  }

  lemma JoinKeepsFinest(g: Dag, root: Parents, n: NodeId, b: NodeId)
    requires MergesNothingElse(g, root) && FanIn(g, n) && b in Deps(g, n)
    ensures MergesNothingElse(g, Joined(root, Deps(g, n)[0], b))
  {
    var a := Deps(g, n)[0];
    forall tag: Parents | KeepsTogether(g, tag) ensures Refines(Joined(root, a, b), tag) {
      assert TaggedAlike(tag, b, a);
      PlantRefines(root, tag, a);
      PlantRefines(WithNode(root, a), tag, b);
      MergeRefines(WithNode(WithNode(root, a), b), tag, a, b);
    }
  }

  /** Joining two nodes never separates two others. */
  lemma JoinCoarsens(root: Parents, a: NodeId, b: NodeId)
    requires forall x :: x in root ==> root[x] in root && root[root[x]] == root[x]
    ensures Refines(root, Joined(root, a, b)) && TaggedAlike(Joined(root, a, b), b, a)
  {
  }

  lemma StillAlike(before: Parents, after: Parents, a: NodeId, b: NodeId)
    requires Refines(before, after) && TaggedAlike(before, a, b)
    ensures TaggedAlike(after, a, b)
  {
    assert TaggedAlike(after, before[a], a) && TaggedAlike(after, before[b], b);
  }

  /** The dependencies of n are in one class. */
  ghost predicate Together(g: Dag, root: Parents, n: NodeId) {
    FanIn(g, n) ==> forall a :: a in Deps(g, n) ==> TaggedAlike(root, a, Deps(g, n)[0])
  }

  /** The union loop: fan-ins that share a dependency end up with one class between them. */
  method MergeFanIns(g: Dag) returns (ds: DisjointSets)
    ensures fresh(ds) && ds.Valid() && Finest(g, ds.root)
  {
    ds := new DisjointSets();
    for i := 0 to |g.nodes|
      invariant fresh(ds) && ds.Valid() && MergesNothingElse(g, ds.root)
      invariant forall k :: 0 <= k < i ==> Together(g, ds.root, g.nodes[k])
    {
      var node := g.nodes[i];
      if FanIn(g, node) {
        JoinDependencies(g, node, ds);
      }
    }
  }

  /** The loop `for dep in rest` over one fan-in's dependencies. */
  method JoinDependencies(g: Dag, node: NodeId, ds: DisjointSets)
    requires ds.Valid() && MergesNothingElse(g, ds.root) && FanIn(g, node)
    modifies ds
    ensures ds.Valid() && MergesNothingElse(g, ds.root) && Together(g, ds.root, node)
    ensures forall n :: old(Together(g, ds.root, n)) ==> Together(g, ds.root, n)
  {
    var deps := Deps(g, node);
    for j := 1 to |deps|
      invariant ds.Valid() && MergesNothingElse(g, ds.root)
      invariant forall n :: old(Together(g, ds.root, n)) ==> Together(g, ds.root, n)
      invariant j > 1 ==> forall k :: 0 <= k < j ==> TaggedAlike(ds.root, deps[k], deps[0])
    {
      ghost var before := ds.root;
      RootsAreNodes(ds.parent, ds.root, ds.height);
      JoinCoarsens(ds.root, deps[0], deps[j]);
      JoinKeepsFinest(g, ds.root, node, deps[j]);
      ds.Union(deps[0], deps[j]);
      forall a, b | TaggedAlike(before, a, b) ensures TaggedAlike(ds.root, a, b) {
        StillAlike(before, ds.root, a, b);
      }
    }
  }

  // ------------------------------------------------------------ members and groups

  ghost function AllDependencies(g: Dag): (r: set<NodeId>)
    ensures forall n, d :: FanIn(g, n) && d in Deps(g, n) ==> d in r
  {
    set n, d | n in g.nodes && FanIn(g, n) && d in Deps(g, n) :: d
  }

  lemma OnlyDependencies(g: Dag, root: Parents)
    requires MergesNothingElse(g, root)
    ensures root.Keys <= AllDependencies(g)
  {
    var tag: Parents := map d | d in AllDependencies(g) :: NodeId(0);
    assert KeepsTogether(g, tag);
    assert Refines(root, tag);
    forall x | x in root ensures x in tag {
      assert TaggedAlike(tag, root[x], x);
    }
  }

  ghost predicate Filed(members: GroupMap, root: Parents, x: NodeId) {
    x in root && root[x] in members && x in members[root[x]]
  }

  ghost predicate FiledRight(members: GroupMap, root: Parents) {
    forall r, x :: r in members && x in members[r] ==> x in root && root[x] == r
  }

  /** members.setdefault(r, []).append(x) */
  function FileUnder(members: GroupMap, r: NodeId, x: NodeId): GroupMap {
    members[r := (if r in members then members[r] else []) + [x]]
  }

  lemma FilingIsRight(members: GroupMap, root: Parents, x: NodeId)
    requires FiledRight(members, root) && x in root
    ensures FiledRight(FileUnder(members, root[x], x), root) && Filed(FileUnder(members, root[x], x), root, x)
    ensures forall y :: Filed(members, root, y) ==> Filed(FileUnder(members, root[x], x), root, y)
  {
  }

  /** Filing find(dep) for the dependencies of one fan-in. */
  method FileDependencies(g: Dag, node: NodeId, ds: DisjointSets, members0: GroupMap) returns (members: GroupMap)
    requires ds.Valid() && FanIn(g, node) && Together(g, ds.root, node) && FiledRight(members0, ds.root)
    modifies ds
    ensures ds.Valid() && ds.root == old(ds.root) && FiledRight(members, ds.root)
    ensures forall x :: x in Deps(g, node) || Filed(members0, ds.root, x) ==> Filed(members, ds.root, x)
  {
    members := members0;
    var deps := Deps(g, node);
    for j := 0 to |deps|
      invariant ds.Valid() && ds.root == old(ds.root) && FiledRight(members, ds.root)
      invariant forall x :: Filed(members0, ds.root, x) ==> Filed(members, ds.root, x)
      invariant forall k :: 0 <= k < j ==> Filed(members, ds.root, deps[k])
    {
      assert TaggedAlike(ds.root, deps[j], deps[0]);
      var r := ds.Find(deps[j]);
      FilingIsRight(members, ds.root, deps[j]);
      members := FileUnder(members, r, deps[j]);
    }
  }

  /** The loop over every fan-in that fills `members`. */
  method FileMembers(g: Dag, ds: DisjointSets) returns (members: GroupMap)
    requires ds.Valid() && Finest(g, ds.root)
    modifies ds
    ensures ds.Valid() && ds.root == old(ds.root)
    ensures FiledRight(members, ds.root) && forall x :: x in AllDependencies(g) ==> Filed(members, ds.root, x)
  {
    members := map[];
    for i := 0 to |g.nodes|
      invariant ds.Valid() && ds.root == old(ds.root) && FiledRight(members, ds.root)
      invariant forall k, x :: 0 <= k < i && FanIn(g, g.nodes[k]) && x in Deps(g, g.nodes[k]) ==> Filed(members, ds.root, x)
    {
      if FanIn(g, g.nodes[i]) {
        assert Together(g, ds.root, g.nodes[i]);
        members := FileDependencies(g, g.nodes[i], ds, members);
      }
    }
  }

  /** members[root] = [node for node in self.nodes if node in seen], for every root. */
  method InDagOrder(g: Dag, filed: GroupMap) returns (members: GroupMap)
    ensures members.Keys == filed.Keys
    ensures forall r :: r in members ==> members[r] == Select(g.nodes, Elements(filed[r]))
  {
    members := filed;
    var todo := filed.Keys;
    while todo != {}
      invariant members.Keys == filed.Keys && todo <= filed.Keys
      invariant forall r :: r in todo ==> members[r] == filed[r]
      invariant forall r :: r in members && r !in todo ==> members[r] == Select(g.nodes, Elements(filed[r]))
    {
      var r :| r in todo;
      todo := todo - {r};
      var seen := set x | x in members[r];
      assert seen == Elements(filed[r]);
      members := members[r := Select(g.nodes, seen)];
    }
  }

  lemma FiledIsClass(g: Dag, root: Parents, filed: GroupMap, r: NodeId)
    requires MergesNothingElse(g, root) && FiledRight(filed, root) && r in filed
    requires forall x :: x in AllDependencies(g) ==> Filed(filed, root, x)
    ensures Elements(filed[r]) == ClassOf(root, r)
  {
    OnlyDependencies(g, root);
    forall x | x in ClassOf(root, r) ensures x in filed[r] {
      assert Filed(filed, root, x);
    }
  }

  /** members[find(node.depends_on[0])] is the group `expected` gives node. */
  ghost predicate Looks(g: Dag, root: Parents, members: GroupMap, expected: GroupMap, n: NodeId) {
    n in expected && Deps(g, n) != [] &&
    var first := Deps(g, n)[0];
    first in root && root[first] in members && members[root[first]] == expected[n]
  }

  lemma MembersAreGroups(g: Dag, root: Parents, filed: GroupMap, members: GroupMap, n: NodeId)
    requires Finest(g, root) && FiledRight(filed, root) && FanIn(g, n)
    requires forall x :: x in AllDependencies(g) ==> Filed(filed, root, x)
    requires members.Keys == filed.Keys
    requires forall r :: r in members ==> members[r] == Select(g.nodes, Elements(filed[r]))
    ensures Looks(g, root, members, GroupsOf(g, root), n)
  {
    var first := Deps(g, n)[0];
    assert first in AllDependencies(g);
    assert Filed(filed, root, first);
    FiledIsClass(g, root, filed, root[first]);
  }

  /** The deadlock check: does some fan-in's group meet that fan-in's downstream set? */
  method MeetsDownstream(g: Dag, ds: DisjointSets, members: GroupMap, downstream: map<NodeId, set<NodeId>>, ghost expected: GroupMap)
    returns (blocked: bool)
    requires ds.Valid() && downstream.Keys == Elements(g.nodes)
    requires forall n :: FanIn(g, n) ==> Looks(g, ds.root, members, expected, n)
    modifies ds
    ensures ds.Valid() && ds.root == old(ds.root)
    ensures blocked <==> exists n, m :: FanIn(g, n) && n in expected && m in expected[n] && m in downstream[n]
  {
    for i := 0 to |g.nodes|
      invariant ds.Valid() && ds.root == old(ds.root)
      invariant forall k, m :: 0 <= k < i && FanIn(g, g.nodes[k]) && m in expected[g.nodes[k]] ==> m !in downstream[g.nodes[k]]
    {
      var node := g.nodes[i];
      if FanIn(g, node) {
        assert Looks(g, ds.root, members, expected, node);
        var k := ds.Find(Deps(g, node)[0]);
        var group := members[k];
        for j := 0 to |group|
          invariant forall l :: 0 <= l < j ==> group[l] !in downstream[node]
        {
          if group[j] in downstream[node] {
            return true;
          }
        }
      }
    }
    return false;
  }

  /** {node: members[find(node.depends_on[0])] for node in fan_in} */
  method WaitGroups(g: Dag, ds: DisjointSets, members: GroupMap, ghost expected: GroupMap) returns (groups: GroupMap)
    requires ds.Valid()
    requires forall n :: FanIn(g, n) ==> Looks(g, ds.root, members, expected, n)
    requires forall n :: n in expected ==> FanIn(g, n)
    modifies ds
    ensures groups == expected
  {
    groups := map[];
    for i := 0 to |g.nodes|
      invariant ds.Valid() && ds.root == old(ds.root)
      invariant forall n :: n in groups <==> n in g.nodes[..i] && FanIn(g, n)
      invariant forall n :: n in groups ==> n in expected && groups[n] == expected[n]
    {
      assert g.nodes[..i + 1] == g.nodes[..i] + [g.nodes[i]];
      if FanIn(g, g.nodes[i]) {
        assert Looks(g, ds.root, members, expected, g.nodes[i]);
        var k := ds.Find(Deps(g, g.nodes[i])[0]);
        groups := groups[g.nodes[i] := members[k]];
      }
    }
    assert g.nodes[..|g.nodes|] == g.nodes;
  }

  /** The whole of dependency_groups(): the grouping, or the deadlock error. */
  method DependencyGroups(g: Dag) returns (r: Result<GroupMap, DagError>)
    requires Built(g) && InGraph(g)
    ensures exists groups ::
      IsGrouping(g, groups) && r == if Blocked(g, groups) then Err(GroupDeadlock) else Ok(groups)
  {
    var ds := MergeFanIns(g);
    var filed := FileMembers(g, ds);
    var members := InDagOrder(g, filed);
    ghost var expected := GroupsOf(g, ds.root);
    assert IsGrouping(g, expected);
    forall n | FanIn(g, n) ensures Looks(g, ds.root, members, expected, n) {
      MembersAreGroups(g, ds.root, filed, members, n);
    }
    var downstream := DownstreamSets(g);
    var blocked := MeetsDownstream(g, ds, members, downstream, expected);
    BlockedMeaning(g, expected, downstream);
    if blocked {
      return Err(GroupDeadlock);
    }
    var groups := WaitGroups(g, ds, members, expected);
    return Ok(groups);
  }

  lemma BlockedMeaning(g: Dag, groups: GroupMap, downstream: map<NodeId, set<NodeId>>)
    requires forall n :: n in groups <==> FanIn(g, n)
    requires forall n, m :: n in groups && m in groups[n] ==> m in g.nodes
    requires downstream.Keys == Elements(g.nodes) && forall m :: m in downstream ==> downstream[m] == DownstreamOf(g, m)
    ensures Blocked(g, groups) <==> exists n, m :: FanIn(g, n) && m in groups[n] && m in downstream[n]
  {
    forall n, m | n in groups && m in groups[n] ensures m in downstream[n] <==> Downstream(g, n, m) {
    }
  }

  // --------------------------------------------------------- what the grouping means

  lemma SameClasses(g: Dag, r1: Parents, r2: Parents, x: NodeId)
    requires Finest(g, r1) && Finest(g, r2) && x in r1
    ensures x in r2 && ClassOf(r1, r1[x]) == ClassOf(r2, r2[x])
  {
    assert Refines(r1, r2) && Refines(r2, r1);
    assert TaggedAlike(r2, r1[x], x);
    forall y | y in ClassOf(r1, r1[x]) ensures y in ClassOf(r2, r2[x]) {
      assert TaggedAlike(r2, r1[y], y);
    }
    assert TaggedAlike(r1, r2[x], x);
    forall y | y in ClassOf(r2, r2[x]) ensures y in ClassOf(r1, r1[x]) {
      assert TaggedAlike(r1, r2[y], y);
    }
  }

  /** A graph has one grouping: nothing depends on the order of the unions. */
  lemma GroupingIsUnique(g: Dag, a: GroupMap, b: GroupMap)
    requires IsGrouping(g, a) && IsGrouping(g, b)
    ensures a == b
  {
    var r1: Parents :| Finest(g, r1) && a == GroupsOf(g, r1);
    var r2: Parents :| Finest(g, r2) && b == GroupsOf(g, r2);
    SameGroups(g, r1, r2);
  }

  lemma SameGroups(g: Dag, r1: Parents, r2: Parents)
    requires Finest(g, r1) && Finest(g, r2)
    ensures GroupsOf(g, r1) == GroupsOf(g, r2)
  {
    forall n | FanIn(g, n)
      ensures ClassOf(r1, RootOf(r1, Deps(g, n)[0])) == ClassOf(r2, RootOf(r2, Deps(g, n)[0]))
    {
      var first := Deps(g, n)[0];
      assert TaggedAlike(r1, first, first);
      SameClasses(g, r1, r2, first);
    }
  }

  /** A waiter's group holds all its dependencies, each once, and only nodes of the DAG. */
  lemma GroupHoldsDependencies(g: Dag, groups: GroupMap, n: NodeId)
    requires Built(g) && InGraph(g) && IsGrouping(g, groups) && FanIn(g, n)
    ensures n in groups
    ensures forall d :: d in Deps(g, n) ==> d in groups[n]
    ensures Distinct(groups[n]) && forall m :: m in groups[n] ==> m in g.nodes
  {
    var root: Parents :| Finest(g, root) && groups == GroupsOf(g, root);
    forall d | d in Deps(g, n) ensures d in groups[n] {
      assert TaggedAlike(root, d, Deps(g, n)[0]);
    }
    SelectKeepsOrder(g.nodes, ClassOf(root, RootOf(root, Deps(g, n)[0])));
  }

  /** Two waiters that share any member share the whole group. */
  lemma GroupsAreDisjoint(g: Dag, groups: GroupMap, a: NodeId, b: NodeId, m: NodeId)
    requires IsGrouping(g, groups) && a in groups && b in groups && m in groups[a] && m in groups[b]
    ensures groups[a] == groups[b]
  {
  }

  /** What a grouping amounts to for those who use it. */
  ghost predicate GroupFacts(g: Dag, groups: GroupMap) {
    && (forall n :: n in groups <==> FanIn(g, n))
    && (forall n, d :: n in groups && d in Deps(g, n) ==> d in groups[n])
    && (forall a, b, m :: a in groups && b in groups && m in groups[a] && m in groups[b] ==> groups[a] == groups[b])
  }

  lemma GroupingFacts(g: Dag, groups: GroupMap)
    requires Built(g) && InGraph(g) && IsGrouping(g, groups)
    ensures GroupFacts(g, groups)
  {
    forall n, d | n in groups && d in Deps(g, n) ensures d in groups[n] {
      GroupHoldsDependencies(g, groups, n);
    }
    forall a, b, m | a in groups && b in groups && m in groups[a] && m in groups[b] ensures groups[a] == groups[b] {
      GroupsAreDisjoint(g, groups, a, b, m);
    }
  }

  /** The members of a group, in the order the DAG lists its nodes. */
  lemma {:induction false} SelectKeepsOrder(nodes: seq<NodeId>, s: set<NodeId>)
    requires Distinct(nodes)
    ensures Distinct(Select(nodes, s))
    ensures forall i, j :: 0 <= i < j < |Select(nodes, s)| ==>
      IndexOf(nodes, Select(nodes, s)[i]) < IndexOf(nodes, Select(nodes, s)[j])
  {
    if nodes != [] {
      SelectKeepsOrder(nodes[1..], s);
      var r, rest := Select(nodes, s), Select(nodes[1..], s);
      var k := |r| - |rest|;
      forall i, j | 0 <= i < j < |r| ensures IndexOf(nodes, r[i]) < IndexOf(nodes, r[j]) && r[i] != r[j] {
        assert r[j] == rest[j - k] && rest[j - k] in nodes[1..];
        if i >= k {
          assert r[i] == rest[i - k] && rest[i - k] in nodes[1..];
        }
      }
    }
  }

  /** Every member of a group is a dependency of some fan-in that waits for that very group. */
  lemma GroupMembersAreNeeded(g: Dag, groups: GroupMap, n: NodeId, m: NodeId) returns (w: NodeId)
    requires IsGrouping(g, groups) && n in groups && m in groups[n]
    ensures FanIn(g, w) && m in Deps(g, w) && w in groups && groups[w] == groups[n]
  {
    var root: Parents :| Finest(g, root) && groups == GroupsOf(g, root);
    OnlyDependencies(g, root);
    w :| FanIn(g, w) && m in Deps(g, w);
    assert TaggedAlike(root, m, Deps(g, w)[0]);
    assert TaggedAlike(root, Deps(g, n)[0], Deps(g, n)[0]);
  }
}
