/**
 Finite directed graphs as successor maps: walks, cycles, reachability, and the
 three facts about them that the rest of the project leans on.
 - A rank that falls along every edge rules cycles out.
 - A non-empty finite set in which every vertex has a successor inside the set
   contains a cycle.
 - A cycle of "long" edges, each standing for a walk, is a cycle of short ones.
 */
module Digraph {

  type Graph<T(==)> = map<T, set<T>>

  ghost predicate Edge<T>(g: Graph<T>, a: T, b: T) {
    a in g && b in g[a]
  }

  /** A non-empty sequence of vertices, each an edge away from the one before. */
  ghost predicate Walk<T>(g: Graph<T>, p: seq<T>) {
    && |p| > 0
    && forall i :: 0 <= i < |p| - 1 ==> Edge(g, p[i], p[i + 1])
  }

  ghost predicate WalkFromTo<T>(g: Graph<T>, p: seq<T>, a: T, b: T) {
    Walk(g, p) && p[0] == a && p[|p| - 1] == b
  }

  ghost predicate Cycle<T>(g: Graph<T>, p: seq<T>) {
    |p| >= 2 && WalkFromTo(g, p, p[0], p[0])
  }

  ghost predicate Acyclic<T(!new)>(g: Graph<T>) {
    forall p: seq<T> :: !Cycle(g, p)
  }

  /** Reflexive and transitive: every vertex reaches itself. */
  ghost predicate Reaches<T(!new)>(g: Graph<T>, a: T, b: T) {
    exists p: seq<T> :: WalkFromTo(g, p, a, b)
  }

  lemma JoinWalks<T>(g: Graph<T>, p: seq<T>, q: seq<T>, a: T, b: T, c: T)
    requires WalkFromTo(g, p, a, b) && WalkFromTo(g, q, b, c)
    ensures WalkFromTo(g, p + q[1..], a, c)
    ensures |p + q[1..]| == |p| + |q| - 1
  {
    var r := p + q[1..];
    forall i | 0 <= i < |r| - 1 ensures Edge(g, r[i], r[i + 1]) {
      if i >= |p| - 1 {
        assert Edge(g, q[i - |p| + 1], q[i - |p| + 2]);
      }
    }
  }

  lemma Prepend<T>(g: Graph<T>, a: T, p: seq<T>)
    requires Walk(g, p) && Edge(g, a, p[0])
    ensures Walk(g, [a] + p)
  {
    var r := [a] + p;
    forall i | 0 <= i < |r| - 1 ensures Edge(g, r[i], r[i + 1]) {
      assert i > 0 ==> Edge(g, p[i - 1], p[i]);
    }
  }

  lemma FourEdgesClose<T>(g: Graph<T>, a: T, b: T, c: T, d: T)
    requires Edge(g, a, b) && Edge(g, b, c) && Edge(g, c, d) && Edge(g, d, a)
    ensures Cycle(g, [a, b, c, d, a])
  {
    var p := [a, b, c, d, a];
    forall i | 0 <= i < |p| - 1 ensures Edge(g, p[i], p[i + 1]) {
    }
  }

  lemma ReachesSelf<T(!new)>(g: Graph<T>, a: T)
    ensures Reaches(g, a, a)
  {
    assert WalkFromTo(g, [a], a, a);
  }

  lemma ReachesStep<T(!new)>(g: Graph<T>, a: T, b: T, c: T)
    requires Edge(g, a, b) && Reaches(g, b, c)
    ensures Reaches(g, a, c)
  {
    var p: seq<T> :| WalkFromTo(g, p, b, c);
    assert WalkFromTo(g, [a, b], a, b);
    JoinWalks(g, [a, b], p, a, b, c);
  }

  /** A rank that strictly falls along every edge leaves no room for a cycle. */
  lemma RankedIsAcyclic<T(!new)>(g: Graph<T>, rank: map<T, int>)
    requires forall a, b :: Edge(g, a, b) ==> a in rank && b in rank && rank[b] < rank[a]
    ensures Acyclic(g)
  {
    forall p: seq<T> | Cycle(g, p) ensures false {
      RankFallsAlong(g, rank, p, |p| - 1);
    }
  }

  lemma {:induction false} RankFallsAlong<T>(g: Graph<T>, rank: map<T, int>, p: seq<T>, k: nat)
    requires forall a, b :: Edge(g, a, b) ==> a in rank && b in rank && rank[b] < rank[a]
    requires Walk(g, p) && 0 < k < |p|
    ensures p[0] in rank && p[k] in rank && rank[p[k]] < rank[p[0]]
  {
    assert Edge(g, p[k - 1], p[k]);
    if k > 1 {
      RankFallsAlong(g, rank, p, k - 1);
    }
  }

  /** Every vertex of s has a successor in s. */
  ghost predicate Trapped<T(!new)>(g: Graph<T>, s: set<T>) {
    forall a :: a in s ==> a in g && g[a] * s != {}
  }

  lemma {:induction false} WalkInside<T(!new)>(g: Graph<T>, s: set<T>, n: nat) returns (p: seq<T>)
    requires s != {} && Trapped(g, s)
    ensures Walk(g, p) && |p| == n + 1 && forall i :: 0 <= i < |p| ==> p[i] in s
  {
    if n == 0 {
      var a :| a in s;
      p := [a];
    } else {
      var q := WalkInside(g, s, n - 1);
      var a := q[n - 1];
      var b :| b in g[a] * s;
      p := q + [b];
      forall i | 0 <= i < |p| - 1 ensures Edge(g, p[i], p[i + 1]) {
        if i < |q| - 1 {
          assert Edge(g, q[i], q[i + 1]);
        } else {
          assert p[i] == a && p[i + 1] == b;
        }
      }
    }
  }

  /** More positions than values: two positions agree. */
  lemma {:induction false} Pigeonhole<T>(p: seq<T>, s: set<T>) returns (i: nat, j: nat)
    requires |p| > |s| && forall k :: 0 <= k < |p| ==> p[k] in s
    ensures i < j < |p| && p[i] == p[j]
    decreases |p|
  {
    var last := p[|p| - 1];
    if k: nat :| k < |p| - 1 && p[k] == last {
      i, j := k, |p| - 1;
    } else {
      i, j := Pigeonhole(p[..|p| - 1], s - {last});
    }
  }

  lemma TrappedHasCycle<T(!new)>(g: Graph<T>, s: set<T>) returns (c: seq<T>)
    requires s != {} && Trapped(g, s)
    ensures Cycle(g, c) && forall k :: 0 <= k < |c| ==> c[k] in s
  {
    var p := WalkInside(g, s, |s|);
    var i, j := Pigeonhole(p, s);
    c := p[i..j + 1];
    forall k | 0 <= k < |c| - 1 ensures Edge(g, c[k], c[k + 1]) {
      assert Edge(g, p[i + k], p[i + k + 1]);
    }
  }

  /** In an acyclic graph every non-empty finite set has a vertex with no successor in it. */
  lemma AcyclicHasSink<T(!new)>(g: Graph<T>, s: set<T>) returns (a: T)
    requires Acyclic(g) && s != {}
    ensures a in s && forall b :: Edge(g, a, b) ==> b !in s
  {
    if Trapped(g, s) {
      var c := TrappedHasCycle(g, s);
      assert false;
    }
    a :| a in s && !(a in g && g[a] * s != {});
    forall b | Edge(g, a, b) ensures b !in s {
      assert b !in g[a] * s;
    }
  }

  /** h's edges stand for walks of g with at least one edge. */
  ghost predicate Expands<T(!new)>(h: Graph<T>, g: Graph<T>) {
    forall a, b :: Edge(h, a, b) ==> exists p: seq<T> :: |p| >= 2 && WalkFromTo(g, p, a, b)
  }

  lemma {:induction false} ExpandWalk<T(!new)>(h: Graph<T>, g: Graph<T>, p: seq<T>) returns (q: seq<T>)
    requires Expands(h, g) && Walk(h, p) && |p| >= 2
    ensures |q| >= 2 && WalkFromTo(g, q, p[0], p[|p| - 1])
    decreases |p|
  {
    assert Edge(h, p[0], p[1]);
    var first: seq<T> :| |first| >= 2 && WalkFromTo(g, first, p[0], p[1]);
    if |p| == 2 {
      q := first;
    } else {
      forall i | 0 <= i < |p[1..]| - 1 ensures Edge(h, p[1..][i], p[1..][i + 1]) {
        assert Edge(h, p[i + 1], p[i + 2]);
      }
      var rest := ExpandWalk(h, g, p[1..]);
      JoinWalks(g, first, rest, p[0], p[1], p[|p| - 1]);
      q := first + rest[1..];
    }
  }

  /** A cycle of long edges is a cycle. */
  lemma ExpandedCycle<T(!new)>(h: Graph<T>, g: Graph<T>)
    requires Expands(h, g) && Acyclic(g)
    ensures Acyclic(h)
  {
    forall p: seq<T> | Cycle(h, p) ensures false {
      var q := ExpandWalk(h, g, p);
      assert Cycle(g, q);
    }
  }

  /** A graph whose edges all map onto edges of an acyclic graph is acyclic. */
  lemma MappedCycle<A(!new), B(!new)>(h: Graph<A>, g: Graph<B>, f: map<A, B>)
    requires forall a, b :: Edge(h, a, b) ==> a in f && b in f && Edge(g, f[a], f[b])
    requires Acyclic(g)
    ensures Acyclic(h)
  {
    forall p: seq<A> | Cycle(h, p) ensures false {
      forall i | 0 <= i < |p| ensures p[i] in f {
        if i < |p| - 1 {
          assert Edge(h, p[i], p[i + 1]);
        } else {
          assert Edge(h, p[i - 1], p[i]);
        }
      }
      var q := seq(|p|, i requires 0 <= i < |p| => f[p[i]]);
      forall i | 0 <= i < |q| - 1 ensures Edge(g, q[i], q[i + 1]) {
        assert Edge(h, p[i], p[i + 1]);
      }
      assert Cycle(g, q);
    }
  }
}
