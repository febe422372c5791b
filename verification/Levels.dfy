/**
 topological_sort(): Kahn's peeling of a dependency graph into execution levels.
 The order of nodes inside a level is whatever order iterating a Python set gives,
 so it is left open here.
 */
module Levels {
  import opened Digraph
  import opened DagModel
  import opened Sets
  import opened Wrappers

  /** Nothing n lists is still unplaced, and it lists nothing twice. */
  ghost predicate Ready(g: Dag, n: NodeId, placed: set<NodeId>) {
    Distinct(Deps(g, n)) && forall d :: d in Deps(g, n) ==> d in placed
  }

  /** What in_degree[n] holds once `placed` has been peeled off. */
  ghost function Outstanding(g: Dag, n: NodeId, placed: set<NodeId>): int {
    |Deps(g, n)| - |Elements(Deps(g, n)) * placed|
  }

  lemma OutstandingZero(g: Dag, n: NodeId, placed: set<NodeId>)
    ensures Outstanding(g, n, placed) == 0 <==> Ready(g, n, placed)
  {
    var all := Elements(Deps(g, n));
    DistinctCount(Deps(g, n));
    SubsetSize(all * placed, all);
    if Ready(g, n, placed) {
      assert forall d :: d in all ==> d in placed;
      assert all * placed == all;
    } else if Distinct(Deps(g, n)) {
      assert !(all <= placed);
    }
  }

  lemma OutstandingStep(g: Dag, n: NodeId, placed: set<NodeId>, x: NodeId)
    requires x !in placed
    ensures Outstanding(g, n, placed + {x})
         == Outstanding(g, n, placed) - if x in Deps(g, n) then 1 else 0
  {
    var all := Elements(Deps(g, n));
    if x in all {
      assert all * (placed + {x}) == all * placed + {x};
    } else {
      assert all * (placed + {x}) == all * placed;
    }
  }

  ghost function Placed(levels: seq<seq<NodeId>>): set<NodeId> {
    if levels == [] then {}
    else Placed(levels[..|levels| - 1]) + Elements(levels[|levels| - 1])
  }

  /** Each level is exactly the nodes that became ready when the one before it was placed. */
  ghost predicate Peeled(g: Dag, levels: seq<seq<NodeId>>) {
    levels == [] ||
    var init, last := levels[..|levels| - 1], levels[|levels| - 1];
    && Peeled(g, init)
    && last != []
    && Distinct(last)
    && forall n :: n in last <==> n in g.nodes && n !in Placed(init) && Ready(g, n, Placed(init))
  }

  method InDegrees(g: Dag) returns (inDegree: map<NodeId, int>)
    requires Built(g)
    ensures inDegree.Keys == Elements(g.nodes)
    ensures forall n :: n in g.nodes ==> inDegree[n] == |Deps(g, n)|
  {
    inDegree := map n | n in g.nodes :: 0;
    for i := 0 to |g.nodes|
      invariant inDegree.Keys == Elements(g.nodes)
      invariant forall k :: 0 <= k < i ==> inDegree[g.nodes[k]] == |Deps(g, g.nodes[k])|
      invariant forall k :: i <= k < |g.nodes| ==> inDegree[g.nodes[k]] == 0
    {
      var node := g.nodes[i];
      ghost var before := inDegree;
      for j := 0 to |Deps(g, node)|
        invariant inDegree == before[node := j]
      {
        inDegree := inDegree[node := inDegree[node] + 1];
      }
    }
  }

  method ReadyLevel(remaining: set<NodeId>, inDegree: map<NodeId, int>) returns (level: seq<NodeId>)
    requires remaining <= inDegree.Keys
    ensures Distinct(level)
    ensures forall n :: n in level <==> n in remaining && inDegree[n] == 0
  {
    level := [];
    var todo := remaining;
    while todo != {}
      decreases |todo|
      invariant todo <= remaining
      invariant Distinct(level)
      invariant forall n :: n in level <==> n in remaining - todo && inDegree[n] == 0
    {
      var n :| n in todo;
      todo := todo - {n};
      if inDegree[n] == 0 {
        level := level + [n];
      }
    }
  }

  /** in_degree is right for every node still to be placed. */
  ghost predicate Counted(g: Dag, inDegree: map<NodeId, int>, remaining: set<NodeId>, placed: set<NodeId>) {
    && remaining <= inDegree.Keys
    && forall n :: n in remaining ==> inDegree[n] == Outstanding(g, n, placed)
  }

  lemma CountedStep(g: Dag, before: map<NodeId, int>, after: map<NodeId, int>, remaining: set<NodeId>, placed: set<NodeId>, x: NodeId)
    requires Counted(g, before, remaining, placed) && x !in placed && after.Keys == before.Keys
    requires forall n :: n in remaining ==> after[n] == before[n] - if x in Deps(g, n) then 1 else 0
    ensures Counted(g, after, remaining, placed + {x})
  {
    forall n | n in remaining ensures after[n] == Outstanding(g, n, placed + {x}) {
      OutstandingStep(g, n, placed, x);
    }
  }

  /** The innermost loop of topological_sort(): one node of the level is gone. */
  method RetireOne(g: Dag, node: NodeId, remaining: set<NodeId>, inDegree0: map<NodeId, int>)
    returns (inDegree: map<NodeId, int>)
    requires remaining <= inDegree0.Keys
    ensures inDegree.Keys == inDegree0.Keys
    ensures forall n :: n in remaining ==> inDegree[n] == inDegree0[n] - if node in Deps(g, n) then 1 else 0
  {
    inDegree := inDegree0;
    var todo := remaining;
    while todo != {}
      invariant todo <= remaining && inDegree.Keys == inDegree0.Keys
      invariant forall n :: n in todo ==> inDegree[n] == inDegree0[n]
      invariant forall n :: n in remaining && n !in todo ==>
        inDegree[n] == inDegree0[n] - if node in Deps(g, n) then 1 else 0
    {
      var other :| other in todo;
      todo := todo - {other};
      if node in Deps(g, other) {
        inDegree := inDegree[other := inDegree[other] - 1];
      }
    }
  }

  /** A whole level is placed: its nodes leave, and whoever listed them waits for that many fewer. */
  method Retire(g: Dag, level: seq<NodeId>, remaining0: set<NodeId>, inDegree0: map<NodeId, int>, ghost placed: set<NodeId>)
    returns (remaining: set<NodeId>, inDegree: map<NodeId, int>)
    requires Distinct(level) && (forall n :: n in level ==> n in remaining0 && n !in placed)
    requires Counted(g, inDegree0, remaining0, placed)
    ensures remaining == remaining0 - Elements(level)
    ensures Counted(g, inDegree, remaining, placed + Elements(level))
  {
    remaining, inDegree := remaining0, inDegree0;
    ghost var gone := placed;
    for i := 0 to |level|
      invariant forall n :: n in remaining <==> n in remaining0 && n !in level[..i]
      invariant forall n :: n in gone <==> n in placed || n in level[..i]
      invariant Counted(g, inDegree, remaining, gone)
    {
      var node := level[i];
      assert level[..i + 1] == level[..i] + [node];
      remaining := remaining - {node};
      ghost var before := inDegree;
      inDegree := RetireOne(g, node, remaining, inDegree);
      CountedStep(g, before, inDegree, remaining, gone, node);
      gone := gone + {node};
    }
    assert level[..|level|] == level;
    assert gone == placed + Elements(level);
  }

  lemma InitiallyCounted(g: Dag, inDegree: map<NodeId, int>)
    requires forall n :: n in g.nodes ==> n in inDegree && inDegree[n] == |Deps(g, n)|
    ensures Counted(g, inDegree, Elements(g.nodes), {})
  {
    forall n | n in g.nodes ensures inDegree[n] == Outstanding(g, n, {}) {
      assert Elements(Deps(g, n)) * {} == {};
    }
  }

  /** The comprehension that picks the next level. */
  lemma ZeroMeansReady(g: Dag, inDegree: map<NodeId, int>, remaining: set<NodeId>, placed: set<NodeId>)
    requires Counted(g, inDegree, remaining, placed)
    ensures forall n :: n in remaining ==> (inDegree[n] == 0 <==> Ready(g, n, placed))
  {
    forall n | n in remaining ensures inDegree[n] == 0 <==> Ready(g, n, placed) {
      OutstandingZero(g, n, placed);
    }
  }

  lemma AppendLevel(g: Dag, levels: seq<seq<NodeId>>, level: seq<NodeId>, remaining: set<NodeId>)
    requires Peeled(g, levels) && level != [] && Distinct(level)
    requires Placed(levels) !! remaining && Elements(g.nodes) == Placed(levels) + remaining
    requires forall n :: n in level <==> n in remaining && Ready(g, n, Placed(levels))
    ensures Peeled(g, levels + [level]) && Placed(levels + [level]) == Placed(levels) + Elements(level)
    ensures Placed(levels + [level]) !! remaining - Elements(level)
    ensures Elements(g.nodes) == Placed(levels + [level]) + (remaining - Elements(level))
  {
    assert (levels + [level])[..|levels|] == levels;
    assert forall n :: n in remaining <==> n in Elements(g.nodes) && n !in Placed(levels);
    assert Elements(level) <= remaining;
  }

  /** Where the peeling stands at the head of the `while remaining` loop. */
  ghost predicate Peeling(g: Dag, levels: seq<seq<NodeId>>, remaining: set<NodeId>, inDegree: map<NodeId, int>) {
    && Peeled(g, levels)
    && Counted(g, inDegree, remaining, Placed(levels))
    && Placed(levels) !! remaining
    && Elements(g.nodes) == Placed(levels) + remaining
  }

  /** The body of the `while remaining` loop; an empty level is the error case. */
  method PeelLevel(g: Dag, ghost levels: seq<seq<NodeId>>, remaining0: set<NodeId>, inDegree0: map<NodeId, int>)
    returns (level: seq<NodeId>, remaining: set<NodeId>, inDegree: map<NodeId, int>)
    requires Peeling(g, levels, remaining0, inDegree0)
    ensures level == [] ==> forall n :: n in remaining0 ==> !Ready(g, n, Placed(levels))
    ensures level != [] ==> Peeling(g, levels + [level], remaining, inDegree) && remaining < remaining0
  {
    ghost var placed := Placed(levels);
    level := ReadyLevel(remaining0, inDegree0);
    ZeroMeansReady(g, inDegree0, remaining0, placed);
    remaining, inDegree := remaining0, inDegree0;
    if level != [] {
      assert level[0] in remaining0;
      AppendLevel(g, levels, level, remaining0);
      remaining, inDegree := Retire(g, level, remaining0, inDegree0, placed);
    }
  }

  method TopologicalSort(g: Dag) returns (r: Result<seq<seq<NodeId>>, DagError>)
    requires Built(g)
    ensures r.Ok? <==> InGraph(g) && DistinctDeps(g) && Acyclic(DependencyGraph(g))
    ensures r.Ok? ==> Peeled(g, r.value) && Placed(r.value) == Elements(g.nodes)
    ensures r.Err? ==> r.error == LevelsStuck
  {
    var inDegree := InDegrees(g);
    var levels: seq<seq<NodeId>> := [];
    var remaining := set n | n in g.nodes;
    InitiallyCounted(g, inDegree);
    while remaining != {}
      invariant Peeling(g, levels, remaining, inDegree)
      decreases remaining
    {
      var level, remaining', inDegree' := PeelLevel(g, levels, remaining, inDegree);
      if level == [] {
        SomethingIsReady(g, Placed(levels), remaining);
        return Err(LevelsStuck);
      }
      levels, remaining, inDegree := levels + [level], remaining', inDegree';
    }
    PeeledIsSound(g, levels);
    return Ok(levels);
  }

  /** A well-formed acyclic graph always has a node to peel next. */
  lemma SomethingIsReady(g: Dag, placed: set<NodeId>, remaining: set<NodeId>)
    requires remaining != {} && remaining == Elements(g.nodes) - placed
    ensures InGraph(g) && DistinctDeps(g) && Acyclic(DependencyGraph(g))
      ==> exists n :: n in remaining && Ready(g, n, placed)
  {
    if InGraph(g) && DistinctDeps(g) && Acyclic(DependencyGraph(g)) {
      var n := AcyclicHasSink(DependencyGraph(g), remaining);
      forall d | d in Deps(g, n) ensures d in placed {
        assert Edge(DependencyGraph(g), n, d);
      }
      assert Ready(g, n, placed);
    }
  }

  function LevelOf(levels: seq<seq<NodeId>>, n: NodeId): (i: nat)
    requires exists i :: 0 <= i < |levels| && n in levels[i]
    ensures i < |levels| && n in levels[i] && forall k :: 0 <= k < i ==> n !in levels[k]
  {
    if n in levels[0] then 0 else
      assert exists i :: 0 <= i < |levels[1..]| && n in levels[1..][i] by {
        var i :| 0 <= i < |levels| && n in levels[i];
        assert n in levels[1..][i - 1];
      }
      1 + LevelOf(levels[1..], n)
  }

  lemma {:induction false} PlacedMeaning(levels: seq<seq<NodeId>>, n: NodeId)
    ensures n in Placed(levels) <==> exists i :: 0 <= i < |levels| && n in levels[i]
  {
    if levels != [] {
      var init := levels[..|levels| - 1];
      PlacedMeaning(init, n);
      if i :| 0 <= i < |init| && n in init[i] {
        assert n in levels[i];
      }
      if n !in Placed(init) && n !in levels[|levels| - 1] {
        forall i | 0 <= i < |levels| ensures n !in levels[i] {
          assert i < |init| ==> levels[i] == init[i];
        }
      }
    }
  }

  lemma {:induction false} PeeledPrefix(g: Dag, levels: seq<seq<NodeId>>, i: nat)
    requires Peeled(g, levels) && i <= |levels|
    ensures Peeled(g, levels[..i])
    decreases |levels|
  {
    if i < |levels| {
      PeeledPrefix(g, levels[..|levels| - 1], i);
      assert levels[..|levels| - 1][..i] == levels[..i];
    } else {
      assert levels[..i] == levels;
    }
  }

  lemma LevelMembers(g: Dag, levels: seq<seq<NodeId>>, i: nat)
    requires Peeled(g, levels) && i < |levels|
    ensures forall n :: n in levels[i] <==>
      n in g.nodes && n !in Placed(levels[..i]) && Ready(g, n, Placed(levels[..i]))
    ensures Distinct(levels[i]) && levels[i] != []
    ensures Placed(levels[..i + 1]) == Placed(levels[..i]) + Elements(levels[i])
  {
    PeeledPrefix(g, levels, i + 1);
    assert levels[..i + 1][..i] == levels[..i];
  }

  /** A dependency sits at a strictly lower level than its dependent. */
  lemma DependencyIsLower(g: Dag, levels: seq<seq<NodeId>>, i: nat, n: NodeId, d: NodeId)
    returns (j: nat)
    requires Peeled(g, levels) && i < |levels| && n in levels[i] && d in Deps(g, n)
    ensures j < i && d in levels[j]
  {
    LevelMembers(g, levels, i);
    PlacedMeaning(levels[..i], d);
    j :| 0 <= j < |levels[..i]| && d in levels[..i][j];
  }

  /** No node is in two levels. */
  lemma LevelsDisjoint(g: Dag, levels: seq<seq<NodeId>>, i: nat, j: nat, n: NodeId)
    requires Peeled(g, levels) && i < |levels| && j < |levels| && n in levels[i] && n in levels[j]
    ensures i == j
  {
    if i != j {
      var lo, hi := if i < j then i else j, if i < j then j else i;
      PlacedMeaning(levels[..hi], n);
      assert n in levels[..hi][lo];
      LevelMembers(g, levels, hi);
      assert false;
    }
  }

  lemma PeeledIsSound(g: Dag, levels: seq<seq<NodeId>>)
    requires Peeled(g, levels) && Placed(levels) == Elements(g.nodes)
    ensures InGraph(g) && DistinctDeps(g) && Acyclic(DependencyGraph(g))
  {
    forall n | n in g.nodes
      ensures exists i :: 0 <= i < |levels| && n in levels[i]
    {
      PlacedMeaning(levels, n);
    }
    var rank := map n | n in g.nodes :: LevelOf(levels, n);
    forall n, d | Edge(DependencyGraph(g), n, d)
      ensures n in rank && d in rank && rank[d] < rank[n]
    {
      var j := DependencyIsLower(g, levels, rank[n], n, d);
      PlacedMeaning(levels, d);
      LevelsDisjoint(g, levels, j, LevelOf(levels, d), d);
    }
    forall n, d | n in g.nodes && d in Deps(g, n) ensures d in g.nodes {
      assert Edge(DependencyGraph(g), n, d);
    }
    forall n | n in g.nodes ensures Distinct(Deps(g, n)) {
      LevelMembers(g, levels, rank[n]);
    }
    RankedIsAcyclic(DependencyGraph(g), rank);
  }

  /** A chain of dependencies starting at n, n included. */
  ghost predicate ChainFrom(g: Dag, p: seq<NodeId>, n: NodeId) {
    Walk(DependencyGraph(g), p) && p[0] == n
  }

  /** A node's level is the length of its longest dependency chain. */
  lemma LevelIsLongestChain(g: Dag, levels: seq<seq<NodeId>>, i: nat, n: NodeId)
    requires Peeled(g, levels) && i < |levels| && n in levels[i]
    ensures exists p :: ChainFrom(g, p, n) && |p| == i + 1
    ensures forall p :: ChainFrom(g, p, n) ==> |p| <= i + 1
  {
    var q := DeepChain(g, levels, i, n);
    forall p | ChainFrom(g, p, n) ensures |p| <= i + 1 {
      ChainIsShort(g, levels, i, n, p);
    }
  }

  lemma {:induction false} DeepChain(g: Dag, levels: seq<seq<NodeId>>, i: nat, n: NodeId) returns (p: seq<NodeId>)
    requires Peeled(g, levels) && i < |levels| && n in levels[i]
    ensures ChainFrom(g, p, n) && |p| == i + 1
  {
    if i == 0 {
      p := [n];
    } else {
      LevelMembers(g, levels, i);
      LevelMembers(g, levels, i - 1);
      var d :| d in Deps(g, n) && d !in Placed(levels[..i - 1]);
      var q := DeepChain(g, levels, i - 1, d);
      assert WalkFromTo(DependencyGraph(g), [n, d], n, d);
      JoinWalks(DependencyGraph(g), [n, d], q, n, d, q[|q| - 1]);
      p := [n, d] + q[1..];
    }
  }

  lemma {:induction false} ChainIsShort(g: Dag, levels: seq<seq<NodeId>>, i: nat, n: NodeId, p: seq<NodeId>)
    requires Peeled(g, levels) && i < |levels| && n in levels[i] && ChainFrom(g, p, n)
    ensures |p| <= i + 1
    decreases i
  {
    if |p| > 1 {
      assert Edge(DependencyGraph(g), p[0], p[1]);
      var j := DependencyIsLower(g, levels, i, n, p[1]);
      var q := p[1..];
      forall k | 0 <= k < |q| - 1 ensures Edge(DependencyGraph(g), q[k], q[k + 1]) {
        assert Edge(DependencyGraph(g), p[k + 1], p[k + 2]);
      }
      ChainIsShort(g, levels, j, p[1], q);
    }
  }
}
