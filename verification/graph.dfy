/**
 * Connectivity of the undirected graph a matrix stands for: walks, the
 * reflexive-transitive closure of the edge relation, the least index of
 * a component, and the component count both engines are measured against.
 */
module Graph {
  import opened Csc

  /** p is a walk: a non-empty sequence of nodes, consecutive ones joined by an edge. */
  ghost predicate IsWalk(m: CscMatrix, p: seq<nat>) {
    && |p| > 0
    && (forall k :: 0 <= k < |p| ==> p[k] < m.nrows)
    && (forall k :: 0 <= k < |p| - 1 ==> Edge(m, p[k], p[k + 1]))
  }

  /** u and v lie in the same connected component. */
  ghost predicate Connected(m: CscMatrix, u: nat, v: nat) {
    exists p :: IsWalk(m, p) && p[0] == u && p[|p| - 1] == v
  }

  /** r is the least index of the component of i. */
  ghost predicate IsLeastInComponent(m: CscMatrix, r: nat, i: nat) {
    && r < m.nrows
    && Connected(m, i, r)
    && forall y: nat :: Connected(m, i, y) ==> r <= y
  }

  /** i is the least index of its own component. */
  ghost predicate IsRepresentative(m: CscMatrix, i: nat) {
    i < m.nrows && forall y: nat :: Connected(m, i, y) ==> i <= y
  }

  /** One representative per connected component. */
  ghost function Representatives(m: CscMatrix): set<nat> {
    set i: nat | i < m.nrows && IsRepresentative(m, i)
  }

  /** The number of connected components of the graph. */
  ghost function ComponentCount(m: CscMatrix): nat {
    |Representatives(m)|
  }

  /** A labelling of the nodes that agrees across every edge. */
  ghost predicate ConstantAlongEdges(m: CscMatrix, g: seq<nat>) {
    |g| == m.nrows && forall u: nat, v: nat :: Edge(m, u, v) ==> g[u] == g[v]
  }

  lemma ConnectedRefl(m: CscMatrix, u: nat)
    requires u < m.nrows
    ensures Connected(m, u, u)
  {
    assert IsWalk(m, [u]);
  }

  lemma EdgeConnected(m: CscMatrix, u: nat, v: nat)
    requires Edge(m, u, v)
    ensures Connected(m, u, v)
  {
    assert IsWalk(m, [u, v]);
  }

  lemma ConnectedNodes(m: CscMatrix, u: nat, v: nat)
    requires Connected(m, u, v)
    ensures u < m.nrows && v < m.nrows
  {
  }

  lemma ConnectedSymm(m: CscMatrix, u: nat, v: nat)
    requires Connected(m, u, v)
    ensures Connected(m, v, u)
  {
    var p :| IsWalk(m, p) && p[0] == u && p[|p| - 1] == v;
    var n := |p|;
    var q := seq(n, k requires 0 <= k < n => p[n - 1 - k]);
    forall k | 0 <= k < n - 1
      ensures Edge(m, q[k], q[k + 1])
    {
      assert Edge(m, p[n - 2 - k], p[n - 1 - k]);
    }
    assert IsWalk(m, q);
  }

  lemma ConnectedTrans(m: CscMatrix, u: nat, v: nat, w: nat)
    requires Connected(m, u, v) && Connected(m, v, w)
    ensures Connected(m, u, w)
  {
    var p :| IsWalk(m, p) && p[0] == u && p[|p| - 1] == v;
    var q :| IsWalk(m, q) && q[0] == v && q[|q| - 1] == w;
    var r := p + q[1..];
    forall k | 0 <= k < |r| - 1
      ensures Edge(m, r[k], r[k + 1])
    {
      if k < |p| - 1 {
        assert r[k] == p[k] && r[k + 1] == p[k + 1];
      } else {
        assert r[k] == q[k - |p| + 1] && r[k + 1] == q[k - |p| + 2];
      }
    }
    assert IsWalk(m, r);
  }

  /** A labelling constant along edges is constant along walks. */
  lemma {:induction false} WalkConstant(m: CscMatrix, g: seq<nat>, p: seq<nat>)
    requires ConstantAlongEdges(m, g) && IsWalk(m, p)
    ensures g[p[0]] == g[p[|p| - 1]]
    decreases |p|
  {
    if |p| > 1 {
      var q := p[..|p| - 1];
      assert IsWalk(m, q) by {
        forall k | 0 <= k < |q| - 1
          ensures Edge(m, q[k], q[k + 1])
        {
          assert Edge(m, p[k], p[k + 1]);
        }
      }
      WalkConstant(m, g, q);
      assert Edge(m, p[|p| - 2], p[|p| - 1]);
    }
  }

  /** ... hence constant on every connected component. */
  lemma ConstantOnComponents(m: CscMatrix, g: seq<nat>, u: nat, v: nat)
    requires ConstantAlongEdges(m, g) && Connected(m, u, v)
    ensures u < m.nrows && v < m.nrows && g[u] == g[v]
  {
    ConnectedNodes(m, u, v);
    var p :| IsWalk(m, p) && p[0] == u && p[|p| - 1] == v;
    WalkConstant(m, g, p);
  }

  /** The common conclusion of both engines: a labelling that agrees across
      edges, never exceeds the node's own index and only names nodes of the
      node's component maps every node to the least index of its component. */
  lemma LeastLabelling(m: CscMatrix, g: seq<nat>)
    requires ConstantAlongEdges(m, g)
    requires forall i: nat :: i < m.nrows ==> g[i] <= i && Connected(m, i, g[i])
    ensures forall i: nat :: i < m.nrows ==> IsLeastInComponent(m, g[i], i)
  {
    forall i: nat | i < m.nrows
      ensures IsLeastInComponent(m, g[i], i)
    {
      forall y: nat | Connected(m, i, y)
        ensures g[i] <= y
      {
        ConstantOnComponents(m, g, i, y);
        assert g[y] <= y;
      }
    }
  }

  lemma LeastIsUnique(m: CscMatrix, r1: nat, r2: nat, i: nat)
    requires IsLeastInComponent(m, r1, i) && IsLeastInComponent(m, r2, i)
    ensures r1 == r2
  {
  }

  /** Under a least-index labelling g, the fixed points of g and the values
      of g are both exactly the representatives of the components. */
  lemma {:induction false} LeastLabellingCounts(m: CscMatrix, g: seq<nat>)
    requires |g| == m.nrows
    requires forall i: nat :: i < m.nrows ==> IsLeastInComponent(m, g[i], i)
    ensures forall i: nat :: i < m.nrows ==> (g[i] == i <==> IsRepresentative(m, i))
    ensures (set i: nat | i < m.nrows && g[i] == i) == Representatives(m)
    ensures (set i | 0 <= i < |g| :: g[i]) == Representatives(m)
  {
    forall i: nat | i < m.nrows
      ensures g[i] == i <==> IsRepresentative(m, i)
    {
      if IsRepresentative(m, i) {
        ConnectedRefl(m, i);
        assert g[i] <= i;
        assert i <= g[i];
      }
    }
    var image := set i | 0 <= i < |g| :: g[i];
    forall x | x in image
      ensures x in Representatives(m)
    {
      var i :| 0 <= i < |g| && g[i] == x;
      forall y: nat | Connected(m, x, y)
        ensures x <= y
      {
        ConnectedTrans(m, i, x, y);
      }
    }
    forall x | x in Representatives(m)
      ensures x in image
    {
      assert g[x] == x;
    }
  }

  /** A graph whose only edges are self-loops (no off-diagonal entries)
      has one component per node. */
  lemma SelfLoopsComponentCount(m: CscMatrix)
    requires forall u: nat, v: nat :: Edge(m, u, v) ==> u == v
    ensures ComponentCount(m) == m.nrows
  {
    var id := seq(m.nrows, i => i);
    assert ConstantAlongEdges(m, id);
    forall i: nat, y: nat | Connected(m, i, y)
      ensures i == y
    {
      ConstantOnComponents(m, id, i, y);
    }
    assert Representatives(m) == Nodes(m.nrows);
  }

  /** There are at most as many components as nodes. */
  lemma ComponentCountBound(m: CscMatrix)
    ensures ComponentCount(m) <= m.nrows
  {
    SubsetCard(Representatives(m), Nodes(m.nrows));
  }

  lemma {:induction false} SubsetCard(a: set<nat>, b: set<nat>)
    requires a <= b
    ensures |a| <= |b|
    decreases |a|
  {
    if a != {} {
      var x :| x in a;
      SubsetCard(a - {x}, b - {x});
    }
  }

  /** The node set {0, ..., n-1}. */
  function Nodes(n: nat): (s: set<nat>)
    ensures |s| == n
    ensures forall i: nat :: i in s <==> i < n
  {
    if n == 0 then {} else Nodes(n - 1) + {n - 1}
  }
}
