/**
 The union-find inside dependency_groups(): a `parent` dictionary, find() with its
 setdefault and one-step compression, and the union `parent[find(dep)] = find(first)`.
 */
module UnionFind {
  import opened DagModel

  type Parents = map<NodeId, NodeId>

  /** What holds at x of parent links, the roots they end in, and a height that falls along them. */
  ghost predicate LinkedAt(parent: Parents, root: Parents, height: map<NodeId, nat>, x: NodeId) {
    && x in parent && x in root && x in height
    && parent[x] in parent && parent[x] in root && parent[x] in height
    && root[x] in parent && root[x] in root
    && root[parent[x]] == root[x]
    && parent[root[x]] == root[x] && root[root[x]] == root[x]
    && (if parent[x] == x then root[x] == x else height[parent[x]] < height[x])
  }

  ghost predicate Forest(parent: Parents, root: Parents, height: map<NodeId, nat>) {
    && root.Keys == parent.Keys == height.Keys
    && forall x {:trigger LinkedAt(parent, root, height, x)} :: x in parent ==> LinkedAt(parent, root, height, x)
  }

  lemma RootsAreNodes(parent: Parents, root: Parents, height: map<NodeId, nat>)
    requires Forest(parent, root, height)
    ensures forall x :: x in root ==> root[x] in root && root[root[x]] == root[x]
  {
    forall x | x in root ensures root[x] in root && root[root[x]] == root[x] {
      assert LinkedAt(parent, root, height, x);
    }
  }

  lemma Plant(parent: Parents, root: Parents, height: map<NodeId, nat>, x: NodeId)
    requires Forest(parent, root, height) && x !in parent
    ensures Forest(parent[x := x], root[x := x], height[x := 0])
  {
    var parent', root', height' := parent[x := x], root[x := x], height[x := 0];
    forall y | y in parent' ensures LinkedAt(parent', root', height', y) {
      assert y != x ==> LinkedAt(parent, root, height, y);
    }
  }

  /** Compression: hanging a node directly under its root changes no root. */
  lemma Compress(parent: Parents, root: Parents, height: map<NodeId, nat>, x: NodeId, r: NodeId)
    requires Forest(parent, root, height) && x in parent && r == root[x]
    requires r == x || (r in height && height[r] < height[x])
    ensures Forest(parent[x := r], root, height)
  {
    var parent' := parent[x := r];
    forall y | y in parent' ensures LinkedAt(parent', root, height, y) {
      assert LinkedAt(parent, root, height, y);
      assert LinkedAt(parent, root, height, x);
      assert LinkedAt(parent, root, height, root[y]);
    }
  }

  /** setdefault(node, node), as it shows in the roots. */
  ghost function WithNode(root: Parents, node: NodeId): Parents {
    if node in root then root else root[node := node]
  }

  /** The two nodes' classes become one, under the first one's root; the others are untouched. */
  ghost function Merged(root: Parents, first: NodeId, dep: NodeId): Parents
    requires first in root && dep in root
  {
    map x | x in root :: if root[x] == root[dep] then root[first] else root[x]
  }

  ghost function Raised(root: Parents, height: map<NodeId, nat>, a: NodeId, b: NodeId): map<NodeId, nat>
    requires root.Keys == height.Keys && a in height
  {
    map x | x in height :: if root[x] == b && a != b then height[x] + height[a] + 1 else height[x]
  }

  lemma Link(parent: Parents, root: Parents, height: map<NodeId, nat>, first: NodeId, dep: NodeId)
    requires Forest(parent, root, height) && first in root && dep in root
    requires root[first] in height
    ensures Forest(parent[root[dep] := root[first]], Merged(root, first, dep), Raised(root, height, root[first], root[dep]))
  {
    var a, b := root[first], root[dep];
    assert LinkedAt(parent, root, height, first) && LinkedAt(parent, root, height, dep);
    assert LinkedAt(parent, root, height, a) && LinkedAt(parent, root, height, b);
    var parent', root', height' := parent[b := a], Merged(root, first, dep), Raised(root, height, a, b);
    forall y | y in parent' ensures LinkedAt(parent', root', height', y) {
      assert LinkedAt(parent, root, height, y);
      assert LinkedAt(parent, root, height, root[y]);
    }
  }

  class DisjointSets {
    var parent: Parents
    ghost var root: Parents
    ghost var height: map<NodeId, nat>

    ghost predicate Valid()
      reads this
    {
      Forest(parent, root, height)
    }

    constructor ()
      ensures Valid() && root == map[]
    {
      parent, root, height := map[], map[], map[];
    }

    /** Terminates on every chain, returns its root, and changes no node's root. */
    method Find(node: NodeId) returns (r: NodeId)
      requires Valid()
      modifies this
      ensures Valid() && root == WithNode(old(root), node)
      ensures node in root && r == root[node]
      // the compression: node itself now hangs right under the root
      ensures parent == old(parent)[node := r]
    {
      if node !in parent {
        Plant(parent, root, height, node);
        parent, root, height := parent[node := node], root[node := node], height[node := 0];
      }
      assert LinkedAt(parent, root, height, node);
      r := parent[node];
      assert LinkedAt(parent, root, height, r);
      while r != parent[r]
        invariant LinkedAt(parent, root, height, r) && root[r] == root[node]
        invariant r == node || height[r] < height[node]
        decreases height[r]
      {
        r := parent[r];
        assert LinkedAt(parent, root, height, r);
      }
      Compress(parent, root, height, node, r);
      parent := parent[node := r];
    }

    /** parent[find(dep)] = find(first) */
    method Union(first: NodeId, dep: NodeId)
      requires Valid()
      modifies this
      ensures Valid()
      ensures root == Merged(WithNode(WithNode(old(root), first), dep), first, dep)
    {
      var a := Find(first);
      var b := Find(dep);
      assert LinkedAt(parent, root, height, first);
      Link(parent, root, height, first, dep);
      parent, root, height := parent[b := a], Merged(root, first, dep), Raised(root, height, a, b);
    }
  }
}
