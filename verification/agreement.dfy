/**
 * The two engines agree: the root map the union pass leaves and the label
 * map propagation stops at are the same map, node to least index of its
 * component, so the root count and the distinct-label count coincide.
 */
module Agreement {
  import opened Common
  import opened Csc
  import opened Graph
  import opened UnionFind
  import opened LabelProp

  lemma EnginesAgree(m: CscMatrix, uf: seq<nat>, lp: seq<nat>)
    requires UnionFindDone(m, uf) && PropagationDone(m, lp)
    ensures forall i :: 0 <= i < m.nrows ==> Root(uf, i) == lp[i]
    ensures |Roots(uf, 0, |uf|)| == |LabelSet(lp)| == ComponentCount(m)
  {
    forall i | 0 <= i < m.nrows
      ensures Root(uf, i) == lp[i]
    {
      LeastIsUnique(m, Root(uf, i), lp[i], i);
    }
    DoneRootCount(m, uf);
    DoneLabelCount(m, lp);
  }

  /** For the same matrix and the same allocation outcomes, the two
      engines return the same value once there is a node and the bitmap
      allocation, which only label propagation makes, succeeds. */
  lemma EnginesReturnSame(m: CscMatrix, alloc: Malloc)
    requires m.nrows < UintLimit && m.nrows > 0 && alloc.bitmap
    ensures UfResult(Some(m), alloc) == LpResult(m, alloc)
    ensures UfResult(Some(m), alloc) == if alloc.labelArray then ToInt(ComponentCount(m)) else -1
  {
    ComponentCountBound(m);
  }

  /** The five-node example: entries (1,0), (0,1), (3,2), (2,3), so the
      components are {0, 1}, {2, 3} and {4}. */
  function FiveNodes(): (m: CscMatrix)
    ensures WellFormed(m)
  {
    CscMatrix(5, 5, 4, [1, 0, 3, 2], [0, 1, 2, 3, 4, 4])
  }

  /** The least index of each node's component in the five-node example. */
  function FiveNodesLeast(): seq<nat> {
    [0, 0, 2, 2, 4]
  }

  /** Every stored entry of the example lies in column 0 to 3 and joins
      the pairs {0, 1} and {2, 3}. */
  lemma FiveNodesStored(r: nat, c: nat)
    requires Stored(FiveNodes(), r, c)
    ensures (r == 1 && c == 0) || (r == 0 && c == 1) || (r == 3 && c == 2) || (r == 2 && c == 3)
  {
  }

  lemma FiveNodesLabelling()
    ensures ConstantAlongEdges(FiveNodes(), FiveNodesLeast())
  {
    var m, g := FiveNodes(), FiveNodesLeast();
    forall u: nat, v: nat | Edge(m, u, v)
      ensures g[u] == g[v]
    {
      if Stored(m, u, v) {
        FiveNodesStored(u, v);
      } else {
        FiveNodesStored(v, u);
      }
    }
  }

  lemma FiveNodesReach(i: nat)
    requires i < 5
    ensures FiveNodesLeast()[i] <= i && Connected(FiveNodes(), i, FiveNodesLeast()[i])
  {
    var m, g := FiveNodes(), FiveNodesLeast();
    if i == 1 || i == 3 {
      assert m.rowIdx[i - 1] == i;
      assert Stored(m, i, i - 1);
      EdgeConnected(m, i, i - 1);
    } else {
      ConnectedRefl(m, i);
    }
  }

  lemma FiveNodesHasThreeComponents()
    ensures ComponentCount(FiveNodes()) == 3
    ensures UfResult(Some(FiveNodes()), Malloc(true, true)) == 3
    ensures LpResult(FiveNodes(), Malloc(true, true)) == 3
  {
    var m, g := FiveNodes(), FiveNodesLeast();
    FiveNodesLabelling();
    forall i: nat | i < m.nrows
      ensures g[i] <= i && Connected(m, i, g[i])
    {
      FiveNodesReach(i);
    }
    LeastLabelling(m, g);
    LeastLabellingCounts(m, g);
    var values := set i | 0 <= i < |g| :: g[i];
    assert values == {0, 2, 4} by {
      assert g[0] == 0 && g[2] == 2 && g[4] == 4;
      forall v | v in values
        ensures v == 0 || v == 2 || v == 4
      {
        var i :| 0 <= i < |g| && g[i] == v;
      }
    }
  }
}
