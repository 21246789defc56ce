/** swapLongEdge moves a whole long edge into one column: afterwards the
    source and every chain vertex sit in that column, so the long edge's
    alignment is 0, and no vertex outside the chain's layers moves. */
module LongEdges {
  import opened GraphModel
  import opened Solutions
  import opened FastSwapCorrect

  /** fastSwap(v1, v2) exchanges the columns of v1 and v2 and moves nothing else. */
  lemma FastSwapMoves(ins: Instance, s: Solution, v1: int, v2: int)
    requires Placed(ins, s) && 0 <= v1 < ins.totalNumVertices && 0 <= v2 < ins.totalNumVertices
    requires ins.layerOf[v1] == ins.layerOf[v2]
    ensures PositionOf(ins, FastSwap(ins, s, v1, v2), v1) == PositionOf(ins, s, v2)
    ensures PositionOf(ins, FastSwap(ins, s, v1, v2), v2) == PositionOf(ins, s, v1)
    ensures forall u :: 0 <= u < ins.totalNumVertices && u != v1 && u != v2 ==>
      PositionOf(ins, FastSwap(ins, s, v1, v2), u) == PositionOf(ins, s, u)
  {
    ExchangePlaced(ins, s, v1, v2);
    forall u | 0 <= u < ins.totalNumVertices && u != v1 && u != v2
      ensures PositionOf(ins, FastSwap(ins, s, v1, v2), u) == PositionOf(ins, s, u)
    {
      ExchangeKeeps(ins, s, v1, v2, u);
    }
  }

  /** The chain's k-th vertex lies k + 1 layers below base. */
  predicate ChainLayers(ins: Instance, chain: seq<Edge>, base: int)
  {
    forall j :: 0 <= j < |chain| ==>
      0 <= chain[j].target < |ins.layerOf| && ins.layerOf[chain[j].target] == base + j + 1
  }

  /** One step of swapLongEdge's loop: fastSwap the k-th chain target with
      the occupant of `position` in its layer. */
  lemma SwapChainUnfold(ins: Instance, s: Solution, chain: seq<Edge>, k: nat, k1: nat, position: int,
                        v: int, occupant: int, s1: Solution)
    requires Placed(ins, s) && 0 <= position < Width(ins)
    requires forall j :: 0 <= j < |chain| ==> 0 <= chain[j].target < ins.totalNumVertices
    requires k < |chain| && k1 == k + 1 && v == chain[k].target
    requires 0 <= ins.layerOf[v] < ins.numberOfLayers
    requires 0 <= HostVertex(ins, ins.layerOf[v], position) < ins.totalNumVertices
    requires occupant == InputVertexAssignedTo(ins, s, ins.layerOf[v], position)
    requires 0 <= occupant < ins.totalNumVertices && ins.layerOf[occupant] == ins.layerOf[v]
    requires s1 == FastSwap(ins, s, v, occupant)
    ensures Placed(ins, s1)
    ensures SwapChain(ins, s, chain, k, position) == SwapChain(ins, s1, chain, k1, position)
  {
  }

  /** The loop of swapLongEdge from chain edge k on puts the targets of
      chain edges k, k + 1, ... into column `position` and moves no vertex of
      any other layer. */
  lemma {:induction false} SwapChainEffect(ins: Instance, s: Solution, chain: seq<Edge>, k: nat, position: int, base: int)
    requires Placed(ins, s) && 0 <= position < Width(ins)
    requires forall j :: 0 <= j < |chain| ==> 0 <= chain[j].target < ins.totalNumVertices
    requires ChainLayers(ins, chain, base)
    ensures forall j :: k <= j < |chain| ==> PositionOf(ins, SwapChain(ins, s, chain, k, position), chain[j].target) == position
    ensures forall u :: 0 <= u < ins.totalNumVertices && !(base + k + 1 <= ins.layerOf[u] <= base + |chain|) ==>
      PositionOf(ins, SwapChain(ins, s, chain, k, position), u) == PositionOf(ins, s, u)
    decreases |chain| - k
  {
    if k < |chain| {
      var v := chain[k].target;
      assert LayersWellFormed(ins);
      var layer := ins.layerOf[v];
      Occupant(ins, s, layer, position);
      var occupant := InputVertexAssignedTo(ins, s, layer, position);
      var s1 := FastSwap(ins, s, v, occupant);
      FastSwapMoves(ins, s, v, occupant);
      var k1: nat := k + 1;
      SwapChainUnfold(ins, s, chain, k, k1, position, v, occupant, s1);
      SwapChainEffect(ins, s1, chain, k1, position, base);
      var r := SwapChain(ins, s1, chain, k1, position);
      forall j | k <= j < |chain| ensures PositionOf(ins, r, chain[j].target) == position {
        if j == k {
          assert ins.layerOf[v] == base + k + 1;
        }
      }
      forall u | 0 <= u < ins.totalNumVertices && !(base + k + 1 <= ins.layerOf[u] <= base + |chain|)
        ensures PositionOf(ins, r, u) == PositionOf(ins, s, u)
      {
        assert ins.layerOf[u] != layer;
      }
    }
  }

  /** After swapLongEdge(le, position) the source and every chain vertex of le
      sit in column `position`, and no vertex outside the layers of le moves. */
  lemma SwapLongEdgeAligns(ins: Instance, s: Solution, le: Edge, position: int)
    requires Placed(ins, s) && le in ins.longEdges && 0 <= position < Width(ins)
    ensures le in ins.chains
    ensures PositionOf(ins, SwapLongEdge(ins, s, le, position), le.source) == position
    ensures forall k :: 0 <= k < |ins.chains[le]| ==>
      PositionOf(ins, SwapLongEdge(ins, s, le, position), ins.chains[le][k].target) == position
    ensures forall u :: 0 <= u < ins.totalNumVertices &&
                        !(ins.layerOf[le.source] <= ins.layerOf[u] <= ins.layerOf[le.source] + |ins.chains[le]|) ==>
      PositionOf(ins, SwapLongEdge(ins, s, le, position), u) == PositionOf(ins, s, u)
    ensures AlignmentOfLongEdge(ins, SwapLongEdge(ins, s, le, position), le) == 0
  {
    var chain := ins.chains[le];
    var base := ins.layerOf[le.source];
    var s1 := SwapLongEdgeFirst(ins, s, le, position);
    SwapChainEffect(ins, s1, chain, 0, position, base);
  }

  /** The first fastSwap of swapLongEdge puts the source into column
      `position` and moves no vertex outside the source's layer; the chain's
      loop then runs on its result. */
  lemma SwapLongEdgeFirst(ins: Instance, s: Solution, le: Edge, position: int) returns (s1: Solution)
    requires Placed(ins, s) && le in ins.longEdges && 0 <= position < Width(ins)
    ensures le in ins.chains && 0 <= le.source < ins.totalNumVertices
    ensures forall j :: 0 <= j < |ins.chains[le]| ==> 0 <= ins.chains[le][j].target < ins.totalNumVertices
    ensures ChainLayers(ins, ins.chains[le], ins.layerOf[le.source])
    ensures Placed(ins, s1)
    ensures SwapLongEdge(ins, s, le, position) == SwapChain(ins, s1, ins.chains[le], 0, position)
    ensures PositionOf(ins, s1, le.source) == position
    ensures forall u :: 0 <= u < ins.totalNumVertices && ins.layerOf[u] != ins.layerOf[le.source] ==>
      PositionOf(ins, s1, u) == PositionOf(ins, s, u)
  {
    assert ChainWellFormed(ins, le);
    var base := ins.layerOf[le.source];
    Occupant(ins, s, base, position);
    var occupant := InputVertexAssignedTo(ins, s, base, position);
    s1 := FastSwap(ins, s, le.source, occupant);
    FastSwapMoves(ins, s, le.source, occupant);
  }
}
