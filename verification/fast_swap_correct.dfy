/** fastSwap and getVariation on a consistent solution: fastSwap(v1, v2)
    leaves exactly the solution swap(v1, v2) leaves, a from-scratch count of
    the exchanged drawing, and getVariation(v1, v2) is the change of the
    crossing number that exchange makes. */
module FastSwapCorrect {
  import opened Sums
  import opened GraphModel
  import opened Crossing
  import opened PairSums
  import opened Solutions
  import opened RecountProofs
  import opened SwapDelta
  import opened FlipLists
  import opened FastSwapProofs

  // ---------------------------------------------------------------------
  // The drawing a complete embedding describes

  /** The short edges of a well-formed instance join adjacent layers. */
  lemma InstanceLayered(ins: Instance)
    requires WellFormed(ins)
    ensures Layered(ins.shortEdges, ins.layerOf, ins.numberOfLayers, ins.totalNumVertices)
  {
    assert LayersWellFormed(ins) && EdgesWellFormed(ins);
  }

  /** Two vertices of one layer never share a column. */
  lemma PlacedInjective(ins: Instance, s: Solution)
    requires Placed(ins, s)
    ensures LayerInjective(Positions(ins, s), ins.layerOf, ins.totalNumVertices)
  {
    var n := ins.totalNumVertices;
    var p := Positions(ins, s);
    forall u, w | 0 <= u < n && 0 <= w < n && u != w && ins.layerOf[u] == ins.layerOf[w]
      ensures p[u] != p[w]
    {
      assert s.host[s.input[u]] == u && s.host[s.input[w]] == w;
    }
  }

  /** The slot of a vertex is its layer's slot at its column. */
  lemma SlotOf(ins: Instance, s: Solution, v: int)
    requires Placed(ins, s) && 0 <= v < ins.totalNumVertices
    ensures s.input[v] == HostVertex(ins, ins.layerOf[v], PositionOf(ins, s, v))
  {
  }

  /** The occupant of (layer, i). */
  function Occupier(ins: Instance, s: Solution, layer: int, i: int): (v: int)
    requires Placed(ins, s) && 0 <= layer < ins.numberOfLayers && 0 <= i < Width(ins)
    ensures 0 <= v < ins.totalNumVertices && ins.layerOf[v] == layer && PositionOf(ins, s, v) == i
    ensures 0 <= HostVertex(ins, layer, i) < ins.totalNumVertices && v == s.host[HostVertex(ins, layer, i)]
  {
    Occupant(ins, s, layer, i);
    InputVertexAssignedTo(ins, s, layer, i)
  }

  /** The occupants of the columns strictly between lo and hi, in order. */
  function Columns(ins: Instance, s: Solution, layer: int, lo: int, hi: int): (W: seq<int>)
    requires Placed(ins, s) && 0 <= layer < ins.numberOfLayers && 0 <= lo < hi <= Width(ins)
    ensures |W| == hi - lo - 1
    ensures forall j :: 0 <= j < |W| ==>
      && 0 <= W[j] < ins.totalNumVertices && ins.layerOf[W[j]] == layer
      && PositionOf(ins, s, W[j]) == lo + 1 + j
  {
    var W := seq(hi - lo - 1, j requires 0 <= j < hi - lo - 1 => Occupier(ins, s, layer, lo + 1 + j));
    assert forall j :: 0 <= j < |W| ==> W[j] == Occupier(ins, s, layer, lo + 1 + j);
    W
  }

  /** Exchanging v1 and v2 moves no other vertex. */
  lemma ExchangeKeeps(ins: Instance, s: Solution, v1: int, v2: int, u: int)
    requires Placed(ins, s) && 0 <= v1 < ins.totalNumVertices && 0 <= v2 < ins.totalNumVertices
    requires 0 <= u < ins.totalNumVertices && u != v1 && u != v2
    ensures PositionOf(ins, Exchange(ins, s, v1, v2), u) == PositionOf(ins, s, u)
  {
  }

  /** Exchanging two vertices of one layer, at columns lo < hi, is the
      exchange of positions FlipLists analyses, with W the occupants of
      the columns between. */
  lemma SwapShapeOf(ins: Instance, s: Solution, v1: int, v2: int, L0: int, lo: int, hi: int,
                    p: seq<int>, p2: seq<int>, W: seq<int>)
    requires Placed(ins, s) && 0 <= v1 < ins.totalNumVertices && 0 <= v2 < ins.totalNumVertices && v1 != v2
    requires ins.layerOf[v1] == L0 && ins.layerOf[v2] == L0
    requires p == Positions(ins, s) && p2 == Positions(ins, Exchange(ins, s, v1, v2))
    requires lo == (if p[v1] < p[v2] then p[v1] else p[v2]) && hi == (if p[v1] < p[v2] then p[v2] else p[v1])
    requires 0 <= L0 < ins.numberOfLayers && 0 <= lo < hi <= Width(ins)
    requires W == Columns(ins, s, L0, lo, hi)
    ensures SwapShape(ins.layerOf, ins.totalNumVertices, p, p2, L0, v1, v2, lo, hi, W)
  {
    var n := ins.totalNumVertices;
    PlacedInjective(ins, s);
    ExchangePlaced(ins, s, v1, v2);
    forall u | 0 <= u < n && u != v1 && u != v2 ensures p2[u] == p[u] {
      ExchangeKeeps(ins, s, v1, v2, u);
    }
  }

  /** The columns lo and hi of the two exchanged vertices bound the others. */
  lemma SwapBounds(ins: Instance, s: Solution, v1: int, v2: int, L0: int, lo: int, hi: int, p: seq<int>)
    requires Placed(ins, s) && 0 <= v1 < ins.totalNumVertices && 0 <= v2 < ins.totalNumVertices && v1 != v2
    requires ins.layerOf[v1] == L0 && ins.layerOf[v2] == L0
    requires p == Positions(ins, s)
    requires lo == (if p[v1] < p[v2] then p[v1] else p[v2]) && hi == (if p[v1] < p[v2] then p[v2] else p[v1])
    ensures 0 <= L0 < ins.numberOfLayers && 0 <= lo < hi <= Width(ins)
  {
    assert LayersWellFormed(ins);
    PlacedInjective(ins, s);
  }

  /** The occupants of the columns strictly between the exchanged vertices
      stay where they are, so after the exchange column j holds the second
      vertex of the listed pairs 2 (j - lo) - 1 and 2 (j - lo). */
  lemma ColumnsAfterExchange(ins: Instance, s: Solution, v1: int, v2: int, L0: int, lo: int, hi: int,
                             p: seq<int>, W: seq<int>)
    requires Placed(ins, s) && 0 <= v1 < ins.totalNumVertices && 0 <= v2 < ins.totalNumVertices
    requires ins.layerOf[v1] == L0 && ins.layerOf[v2] == L0
    requires p == Positions(ins, s)
    requires (p[v1] == lo && p[v2] == hi) || (p[v1] == hi && p[v2] == lo)
    requires 0 <= L0 < ins.numberOfLayers && 0 <= lo < hi <= Width(ins)
    requires W == Columns(ins, s, L0, lo, hi)
    ensures ColumnsListed(ins, Exchange(ins, s, v1, v2).host, v1, v2, L0, lo, hi, FlipList(v1, v2, W))
  {
    var s1 := Exchange(ins, s, v1, v2);
    var Q := FlipList(v1, v2, W);
    SlotOf(ins, s, v1);
    SlotOf(ins, s, v2);
    forall j | lo < j < hi
      ensures 0 <= HostVertex(ins, L0, j) < |s1.host|
      ensures 0 <= 2 * (j - lo) < |Q|
      ensures Q[2 * (j - lo) - 1] == (v1, s1.host[HostVertex(ins, L0, j)])
      ensures Q[2 * (j - lo)] == (v2, s1.host[HostVertex(ins, L0, j)])
    {
      ColumnAfterExchange(ins, s, v1, v2, L0, lo, hi, p, W, j);
    }
  }

  lemma ColumnAfterExchange(ins: Instance, s: Solution, v1: int, v2: int, L0: int, lo: int, hi: int,
                            p: seq<int>, W: seq<int>, j: int)
    requires Placed(ins, s) && 0 <= v1 < ins.totalNumVertices && 0 <= v2 < ins.totalNumVertices
    requires ins.layerOf[v1] == L0 && ins.layerOf[v2] == L0
    requires p == Positions(ins, s)
    requires (p[v1] == lo && p[v2] == hi) || (p[v1] == hi && p[v2] == lo)
    requires 0 <= L0 < ins.numberOfLayers && 0 <= lo < hi <= Width(ins)
    requires W == Columns(ins, s, L0, lo, hi)
    requires s.input[v1] == HostVertex(ins, L0, p[v1]) && s.input[v2] == HostVertex(ins, L0, p[v2])
    requires lo < j < hi
    ensures 0 <= HostVertex(ins, L0, j) < ins.totalNumVertices
    ensures 0 <= 2 * (j - lo) < |FlipList(v1, v2, W)|
    ensures FlipList(v1, v2, W)[2 * (j - lo) - 1] == (v1, Exchange(ins, s, v1, v2).host[HostVertex(ins, L0, j)])
    ensures FlipList(v1, v2, W)[2 * (j - lo)] == (v2, Exchange(ins, s, v1, v2).host[HostVertex(ins, L0, j)])
  {
    var s1 := Exchange(ins, s, v1, v2);
    var k := j - lo - 1;
    var w := Occupier(ins, s, L0, j);
    assert W[k] == w;
    assert 2 * k + 1 == 2 * (j - lo) - 1 && 2 * k + 2 == 2 * (j - lo);
    var slot := HostVertex(ins, L0, j);
    assert slot != s.input[v1] && slot != s.input[v2];
    assert s1.host[slot] == s.host[slot];
  }

  /** The flip analysis' setup gives everything the per-pair corrections need. */
  lemma ReadyOf(E: seq<Edge>, lay: seq<int>, nl: int, n: int, p: seq<int>, p2: seq<int>, L0: int, Q: seq<(int, int)>)
    requires FlipSetup(E, lay, nl, n, p, p2, L0, Q)
    ensures StepReady(E, lay, nl, n, p, p2, L0, Q)
  {
    AllStatus(E, lay, nl, n, p, p2, L0, Q);
    forall k | 0 <= k < |Q| ensures PairFlips(p, p2, QPair(Q, k)) {
      assert QOk(lay, n, p, p2, L0, Q[k]);
      var u, w := Q[k].0, Q[k].1;
      assert p[u] != p[w] && p2[u] != p2[w];
    }
  }

  // ---------------------------------------------------------------------
  // fastSwap of two distinct vertices

  /** A consistent solution is the state before the first correction. */
  lemma ProgressStart(ins: Instance, s: Solution, p: seq<int>, p2: seq<int>, Q: seq<(int, int)>)
    requires Consistent(ins, s) && p == Positions(ins, s)
    ensures Progress(ins.shortEdges, ins.layerOf, ins.numberOfLayers, ins.totalNumVertices, p, p2, Q, 0, s.objective, s.cuts)
  {
  }

  /** After every listed pair has been corrected, score and matrix are the
      from-scratch count of the exchanged positions. */
  lemma ProgressDone(ins: Instance, r: Solution, p: seq<int>, p2: seq<int>, L0: int, Q: seq<(int, int)>, K: int)
    requires Placed(ins, r) && Positions(ins, r) == p2
    requires StepReady(ins.shortEdges, ins.layerOf, ins.numberOfLayers, ins.totalNumVertices, p, p2, L0, Q)
    requires K == |Q|
    requires Progress(ins.shortEdges, ins.layerOf, ins.numberOfLayers, ins.totalNumVertices, p, p2, Q, K, r.objective, r.cuts)
    ensures Consistent(ins, r)
  {
    var E, lay, nl, n := ins.shortEdges, ins.layerOf, ins.numberOfLayers, ins.totalNumVertices;
    ScoreDelta(E, lay, nl, p, p2, L0, Q);
    forall c, d | 0 <= c < n && 0 <= d < n ensures r.cuts[c][d] == CountMatrixOf(ins, r)[c][d] {
      CellDelta(E, lay, nl, n, p, p2, L0, Q, c, d);
    }
    MatrixEq(r.cuts, CountMatrixOf(ins, r), n);
  }

  /** Solutions with the same slots have the same positions. */
  lemma SamePositions(ins: Instance, a: Solution, b: Solution)
    requires WellFormed(ins) && Shaped(ins, a) && Shaped(ins, b) && a.input == b.input
    ensures Positions(ins, a) == Positions(ins, b)
  {
  }

  /** fastSwap is the exchange, the correction of the exchanged pair, and the
      loop over the columns strictly between the two. */
  lemma FastSwapUnfold(ins: Instance, s: Solution, v1: int, v2: int, L0: int, p: seq<int>,
                       lo: int, lo1: int, hi: int, s2: Solution)
    requires Placed(ins, s) && 0 <= v1 < ins.totalNumVertices && 0 <= v2 < ins.totalNumVertices
    requires ins.layerOf[v1] == L0 && ins.layerOf[v2] == L0 && p == Positions(ins, s)
    requires lo == (if p[v1] < p[v2] then p[v1] else p[v2]) && hi == (if p[v1] < p[v2] then p[v2] else p[v1])
    requires lo1 == lo + 1
    requires s2 == FastSwapRecalculateScore(ins, Exchange(ins, s, v1, v2), v1, v2)
    ensures 0 <= L0 < ins.numberOfLayers && 0 <= lo1 && hi <= Width(ins)
    ensures Placed(ins, s2)
    ensures FastSwap(ins, s, v1, v2) == Run(ins, s2, v1, v2, L0, lo1, hi)
  {
    var s1 := Exchange(ins, s, v1, v2);
    ExchangePlaced(ins, s, v1, v2);
    FastSwapSplit(ins, s, v1, v2);
    assert PositionOf(ins, s1, v1) == p[v2] && PositionOf(ins, s1, v2) == p[v1];
    assert SwapLo(ins, s1, v1, v2) == lo && SwapHi(ins, s1, v1, v2) == hi;
    AfterExchangeRun(ins, s1, v1, v2, L0, lo1, hi, s2);
  }

  /** fastSwap is its second half applied to the exchanged solution. */
  lemma FastSwapSplit(ins: Instance, s: Solution, v1: int, v2: int)
    requires Placed(ins, s) && 0 <= v1 < ins.totalNumVertices && 0 <= v2 < ins.totalNumVertices
    requires ins.layerOf[v1] == ins.layerOf[v2]
    ensures Placed(ins, Exchange(ins, s, v1, v2))
    ensures FastSwap(ins, s, v1, v2) == FastSwapAfterExchange(ins, Exchange(ins, s, v1, v2), v1, v2)
  {
    ExchangePlaced(ins, s, v1, v2);
  }

  /** The second half of fastSwap is the loop started on the corrected pair. */
  lemma AfterExchangeRun(ins: Instance, s1: Solution, v1: int, v2: int, L0: int, lo1: int, hi: int, s2: Solution)
    requires Placed(ins, s1) && 0 <= v1 < ins.totalNumVertices && 0 <= v2 < ins.totalNumVertices
    requires ins.layerOf[v1] == L0 && ins.layerOf[v2] == L0
    requires lo1 == SwapLo(ins, s1, v1, v2) + 1 && hi == SwapHi(ins, s1, v1, v2)
    requires s2 == FastSwapRecalculateScore(ins, s1, v1, v2)
    ensures 0 <= L0 < ins.numberOfLayers && 0 <= lo1 && hi <= Width(ins)
    ensures Placed(ins, s2)
    ensures FastSwapAfterExchange(ins, s1, v1, v2) == Run(ins, s2, v1, v2, L0, lo1, hi)
  {
    FsrPositions(ins, s1, v1, v2);
    assert FastSwapAfterExchange(ins, s1, v1, v2) == FastSwapBetween(ins, s2, v1, v2, L0, lo1, hi);
  }

  /** fastSwap of two distinct vertices of one layer on a consistent solution
      leaves a consistent solution. */
  lemma FastSwapDistinct(ins: Instance, s: Solution, v1: int, v2: int)
    requires Consistent(ins, s) && 0 <= v1 < ins.totalNumVertices && 0 <= v2 < ins.totalNumVertices
    requires ins.layerOf[v1] == ins.layerOf[v2] && v1 != v2
    ensures Consistent(ins, FastSwap(ins, s, v1, v2))
  {
    var E, lay, nl, n := ins.shortEdges, ins.layerOf, ins.numberOfLayers, ins.totalNumVertices;
    var L0 := lay[v1];
    var s1 := Exchange(ins, s, v1, v2);
    ExchangePlaced(ins, s, v1, v2);
    var p := Positions(ins, s);
    var p2 := Positions(ins, s1);
    var lo := if p[v1] < p[v2] then p[v1] else p[v2];
    var hi := if p[v1] < p[v2] then p[v2] else p[v1];
    SwapBounds(ins, s, v1, v2, L0, lo, hi, p);
    var W := Columns(ins, s, L0, lo, hi);
    SwapShapeOf(ins, s, v1, v2, L0, lo, hi, p, p2, W);
    ColumnsAfterExchange(ins, s, v1, v2, L0, lo, hi, p, W);
    InstanceLayered(ins);
    FlipListSetup(E, lay, nl, n, p, p2, L0, v1, v2, lo, hi, W);
    var Q := FlipList(v1, v2, W);
    ReadyOf(E, lay, nl, n, p, p2, L0, Q);
    ProgressStart(ins, s, p, p2, Q);
    FsrStep(ins, s1, p, p2, L0, Q, 0);
    var s2 := FastSwapRecalculateScore(ins, s1, v1, v2);
    FsrPositions(ins, s1, v1, v2);
    var r := FastSwap(ins, s, v1, v2);
    var lo1 := lo + 1;
    FastSwapUnfold(ins, s, v1, v2, L0, p, lo, lo1, hi, s2);
    BetweenProgress(ins, s2, v1, v2, L0, lo, lo1, hi, Q, p, p2, 1, r);
    SamePositions(ins, r, s1);
    ProgressDone(ins, r, p, p2, L0, Q, |Q|);
  }

  // ---------------------------------------------------------------------
  // fastSwap of a vertex with itself

  /** Exchanging a vertex with itself changes nothing. */
  lemma ExchangeSelf(ins: Instance, s: Solution, v: int)
    requires Placed(ins, s) && 0 <= v < ins.totalNumVertices
    ensures Exchange(ins, s, v, v) == s
  {
    var r := Exchange(ins, s, v, v);
    assert r.input == s.input;
    assert r.host == s.host;
  }

  /** A correction step of a vertex against itself changes no cell. */
  lemma StepDeltaSelf(p: seq<int>, x: int, a: int, b: int, c: int, d: int)
    ensures StepDelta(p, x, a, x, b, c, d) == 0
  {
    assert Cut(p, Edge(x, a), Edge(x, b)) == IsCutByPos(Pos(p, x), Pos(p, a), Pos(p, x), Pos(p, b));
  }

  /** No pair of edges contributes to a diagonal cell. */
  lemma DiagonalZero(E: seq<Edge>, lay: seq<int>, nl: int, p: seq<int>, c: int)
    ensures CellCount(E, lay, nl, p, c, c) == 0
  {
    PairsZero(E, Restrict(lay, nl, CellW(p, c, c)));
  }

  /** fastSwapRecalculateScore of a vertex with itself leaves a consistent
      solution as it is. */
  lemma FsrSelf(ins: Instance, s: Solution, v: int)
    requires Consistent(ins, s) && 0 <= v < ins.totalNumVertices
    ensures FastSwapRecalculateScore(ins, s, v, v) == s
  {
    var E, n := ins.shortEdges, ins.totalNumVertices;
    var p := Positions(ins, s);
    var r := FastSwapRecalculateScore(ins, s, v, v);
    FsrEffect(ins, s, v, v);
    forall c, d | 0 <= c < n && 0 <= d < n ensures r.cuts[c][d] == s.cuts[c][d] {
      forall i, j | 0 <= i < |E| && 0 <= j < |E|
        ensures DownW(E, p, v, v, c, d)(i, j) == 0 && UpW(E, p, v, v, c, d)(i, j) == 0
      {
        StepDeltaSelf(p, v, E[i].target, E[j].target, c, d);
        StepDeltaSelf(p, v, E[i].source, E[j].source, c, d);
      }
      SquareZero(|E|, DownW(E, p, v, v, c, d));
      SquareZero(|E|, UpW(E, p, v, v, c, d));
      DiagonalZero(E, ins.layerOf, ins.numberOfLayers, p, v);
    }
    MatrixEq(r.cuts, s.cuts, n);
  }

  /** fastSwap of a vertex with itself leaves a consistent solution as it is. */
  lemma FastSwapSelf(ins: Instance, s: Solution, v: int)
    requires Consistent(ins, s) && 0 <= v < ins.totalNumVertices
    ensures FastSwap(ins, s, v, v) == s
  {
    var L0 := ins.layerOf[v];
    var p := Positions(ins, s);
    var lo := p[v];
    var s2 := FastSwapRecalculateScore(ins, Exchange(ins, s, v, v), v, v);
    ExchangeSelf(ins, s, v);
    FsrSelf(ins, s, v);
    FastSwapUnfold(ins, s, v, v, L0, p, lo, lo + 1, lo, s2);
    BetweenUnfold(ins, s2, v, v, L0, lo + 1, lo);
  }

  // ---------------------------------------------------------------------
  // The headline facts

  /** fastSwap(v1, v2) on a consistent solution leaves exactly what swap(v1, v2)
      leaves: the exchanged embedding with the score and matrix of a count
      from scratch. */
  lemma FastSwapIsSwap(ins: Instance, s: Solution, v1: int, v2: int)
    requires Consistent(ins, s) && 0 <= v1 < ins.totalNumVertices && 0 <= v2 < ins.totalNumVertices
    requires ins.layerOf[v1] == ins.layerOf[v2]
    ensures Consistent(ins, FastSwap(ins, s, v1, v2))
    ensures FastSwap(ins, s, v1, v2) == Swap(ins, s, v1, v2)
    ensures FastSwap(ins, s, v1, v2).objective == CrossingsOf(ins, Exchange(ins, s, v1, v2))
  {
    var r := FastSwap(ins, s, v1, v2);
    var w := Swap(ins, s, v1, v2);
    var s1 := Exchange(ins, s, v1, v2);
    SwapCorrect(ins, s, v1, v2);
    RecalculateScoreCorrect(ins, s1);
    if v1 == v2 {
      FastSwapSelf(ins, s, v1);
      ExchangeSelf(ins, s, v1);
    } else {
      FastSwapDistinct(ins, s, v1, v2);
    }
    SamePositions(ins, r, s1);
    SamePositions(ins, w, s1);
  }

  /** getVariationOfSingleSwap reads the k-th listed pair's term of the score
      change off a consistent matrix. */
  lemma SingleScore(ins: Instance, s: Solution, a: int, b: int, p: seq<int>, Q: seq<(int, int)>, k: int)
    requires Consistent(ins, s) && p == Positions(ins, s)
    requires 0 <= a < ins.totalNumVertices && 0 <= b < ins.totalNumVertices
    requires 0 <= k < |Q| && Q[k] == (a, b)
    ensures SingleVariation(ins, s, a, b) == ScoreFn(ins.shortEdges, ins.layerOf, ins.numberOfLayers, p, Q)(k)
  {
  }

  /** Before the exchange, too, column j holds the second vertex of the
      listed pairs 2 (j - lo) - 1 and 2 (j - lo). */
  lemma ColumnsBefore(ins: Instance, s: Solution, v1: int, v2: int, L0: int, lo: int, hi: int, W: seq<int>)
    requires Placed(ins, s) && 0 <= L0 < ins.numberOfLayers && 0 <= lo < hi <= Width(ins)
    requires W == Columns(ins, s, L0, lo, hi)
    ensures ColumnsListed(ins, s.host, v1, v2, L0, lo, hi, FlipList(v1, v2, W))
  {
    var Q := FlipList(v1, v2, W);
    forall j | lo < j < hi
      ensures 0 <= HostVertex(ins, L0, j) < |s.host|
      ensures 0 <= 2 * (j - lo) < |Q|
      ensures Q[2 * (j - lo) - 1] == (v1, s.host[HostVertex(ins, L0, j)])
      ensures Q[2 * (j - lo)] == (v2, s.host[HostVertex(ins, L0, j)])
    {
      var k := j - lo - 1;
      var w := Occupier(ins, s, L0, j);
      assert W[k] == w;
      assert 2 * k + 1 == 2 * (j - lo) - 1 && 2 * k + 2 == 2 * (j - lo);
    }
  }

  /** One column of getVariation's loop. */
  lemma VariationStep(ins: Instance, s: Solution, v1: int, v2: int, L0: int, i: int, i1: int, hi: int, v3: int)
    requires Placed(ins, s)
    requires 0 <= v1 < ins.totalNumVertices && 0 <= v2 < ins.totalNumVertices
    requires 0 <= L0 < ins.numberOfLayers && 0 <= i < hi <= Width(ins) && i1 == i + 1
    requires 0 <= HostVertex(ins, L0, i) < ins.totalNumVertices
    requires v3 == InputVertexAssignedTo(ins, s, L0, i) && 0 <= v3 < ins.totalNumVertices
    ensures VariationBetween(ins, s, v1, v2, L0, i, hi)
         == SingleVariation(ins, s, v1, v3) + SingleVariation(ins, s, v2, v3) + VariationBetween(ins, s, v1, v2, L0, i1, hi)
  {
  }

  /** getVariation's loop from column i on reads off the terms K, K + 1, ...
      of the score change. */
  lemma {:induction false} VariationSum(ins: Instance, s: Solution, v1: int, v2: int, L0: int, lo: int, i: int, hi: int,
                                        Q: seq<(int, int)>, p: seq<int>, K: int)
    requires Consistent(ins, s) && p == Positions(ins, s)
    requires 0 <= v1 < ins.totalNumVertices && 0 <= v2 < ins.totalNumVertices
    requires 0 <= L0 < ins.numberOfLayers && 0 <= lo < i <= hi <= Width(ins) && |Q| == 2 * (hi - lo) - 1
    requires ColumnsListed(ins, s.host, v1, v2, L0, lo, hi, Q)
    requires K == 2 * (i - lo) - 1
    ensures VariationBetween(ins, s, v1, v2, L0, i, hi) == Sum(K, |Q|, ScoreFn(ins.shortEdges, ins.layerOf, ins.numberOfLayers, p, Q))
    decreases hi - i
  {
    var f := ScoreFn(ins.shortEdges, ins.layerOf, ins.numberOfLayers, p, Q);
    if i < hi {
      ColumnAt(ins, s.host, v1, v2, L0, lo, hi, Q, i, K);
      var v3 := InputVertexAssignedTo(ins, s, L0, i);
      SingleScore(ins, s, v1, v3, p, Q, K);
      SingleScore(ins, s, v2, v3, p, Q, K + 1);
      var i1, K1, K2 := i + 1, K + 1, K + 2;
      SumFront(K, |Q|, f);
      SumFront(K1, |Q|, f);
      assert Sum(K, |Q|, f) == f(K) + f(K1) + Sum(K2, |Q|, f);
      VariationStep(ins, s, v1, v2, L0, i, i1, hi, v3);
      VariationSum(ins, s, v1, v2, L0, lo, i1, hi, Q, p, K2);
    } else {
      assert VariationBetween(ins, s, v1, v2, L0, i, hi) == 0;
    }
  }

  /** getVariation is the pair's own term and the loop from the column after lo. */
  lemma GetVariationUnfold(ins: Instance, s: Solution, v1: int, v2: int, L0: int, p: seq<int>, lo: int, lo1: int, hi: int)
    requires Placed(ins, s) && 0 <= v1 < ins.totalNumVertices && 0 <= v2 < ins.totalNumVertices
    requires ins.layerOf[v1] == L0 && p == Positions(ins, s)
    requires lo == (if p[v1] < p[v2] then p[v1] else p[v2]) && hi == (if p[v1] < p[v2] then p[v2] else p[v1])
    requires lo1 == lo + 1
    ensures 0 <= L0 < ins.numberOfLayers && 0 <= lo1 && hi <= Width(ins)
    ensures GetVariation(ins, s, v1, v2) == SingleVariation(ins, s, v1, v2) + VariationBetween(ins, s, v1, v2, L0, lo1, hi)
  {
    assert LayersWellFormed(ins);
  }

  /** getVariation(v1, v2) on a consistent solution is the change of the
      crossing number that exchanging v1 and v2 makes. */
  lemma GetVariationCorrect(ins: Instance, s: Solution, v1: int, v2: int)
    requires Consistent(ins, s) && 0 <= v1 < ins.totalNumVertices && 0 <= v2 < ins.totalNumVertices
    requires ins.layerOf[v1] == ins.layerOf[v2]
    ensures GetVariation(ins, s, v1, v2) == CrossingsOf(ins, Exchange(ins, s, v1, v2)) - CrossingsOf(ins, s)
  {
    var L0 := ins.layerOf[v1];
    var p := Positions(ins, s);
    if v1 == v2 {
      ExchangeSelf(ins, s, v1);
    } else {
      var lo := if p[v1] < p[v2] then p[v1] else p[v2];
      var hi := if p[v1] < p[v2] then p[v2] else p[v1];
      SwapBounds(ins, s, v1, v2, L0, lo, hi, p);
      var W := Columns(ins, s, L0, lo, hi);
      var Q := FlipList(v1, v2, W);
      DistinctDelta(ins, s, v1, v2, L0, p, lo, hi, W, Q);
      DistinctVariation(ins, s, v1, v2, L0, p, lo, hi, W, Q);
    }
  }

  /** The exchange of two distinct vertices of layer L0 changes the
      crossings by the sum of the pair scores over the flip list. */
  lemma DistinctDelta(ins: Instance, s: Solution, v1: int, v2: int, L0: int, p: seq<int>,
                      lo: int, hi: int, W: seq<int>, Q: seq<(int, int)>)
    requires Consistent(ins, s) && 0 <= v1 < ins.totalNumVertices && 0 <= v2 < ins.totalNumVertices && v1 != v2
    requires ins.layerOf[v1] == L0 && ins.layerOf[v2] == L0 && p == Positions(ins, s)
    requires lo == (if p[v1] < p[v2] then p[v1] else p[v2]) && hi == (if p[v1] < p[v2] then p[v2] else p[v1])
    requires 0 <= L0 < ins.numberOfLayers && 0 <= lo < hi <= Width(ins)
    requires W == Columns(ins, s, L0, lo, hi) && Q == FlipList(v1, v2, W)
    ensures CrossingsOf(ins, Exchange(ins, s, v1, v2))
      == CrossingsOf(ins, s) + Sum(0, |Q|, ScoreFn(ins.shortEdges, ins.layerOf, ins.numberOfLayers, p, Q))
  {
    var E, lay, nl, n := ins.shortEdges, ins.layerOf, ins.numberOfLayers, ins.totalNumVertices;
    var s1 := Exchange(ins, s, v1, v2);
    ExchangePlaced(ins, s, v1, v2);
    var p2 := Positions(ins, s1);
    SwapShapeOf(ins, s, v1, v2, L0, lo, hi, p, p2, W);
    InstanceLayered(ins);
    FlipListSetup(E, lay, nl, n, p, p2, L0, v1, v2, lo, hi, W);
    AllStatus(E, lay, nl, n, p, p2, L0, Q);
    ScoreDelta(E, lay, nl, p, p2, L0, Q);
  }

  /** getVariation of two distinct vertices of layer L0 is the sum of the
      pair scores over the flip list. */
  lemma DistinctVariation(ins: Instance, s: Solution, v1: int, v2: int, L0: int, p: seq<int>,
                          lo: int, hi: int, W: seq<int>, Q: seq<(int, int)>)
    requires Consistent(ins, s) && 0 <= v1 < ins.totalNumVertices && 0 <= v2 < ins.totalNumVertices && v1 != v2
    requires ins.layerOf[v1] == L0 && ins.layerOf[v2] == L0 && p == Positions(ins, s)
    requires lo == (if p[v1] < p[v2] then p[v1] else p[v2]) && hi == (if p[v1] < p[v2] then p[v2] else p[v1])
    requires 0 <= L0 < ins.numberOfLayers && 0 <= lo < hi <= Width(ins)
    requires W == Columns(ins, s, L0, lo, hi) && Q == FlipList(v1, v2, W)
    ensures GetVariation(ins, s, v1, v2) == Sum(0, |Q|, ScoreFn(ins.shortEdges, ins.layerOf, ins.numberOfLayers, p, Q))
  {
    var f := ScoreFn(ins.shortEdges, ins.layerOf, ins.numberOfLayers, p, Q);
    var lo1 := lo + 1;
    assert |Q| == 2 * (hi - lo) - 1 && Q[0] == (v1, v2);
    ColumnsBefore(ins, s, v1, v2, L0, lo, hi, W);
    VariationSum(ins, s, v1, v2, L0, lo, lo1, hi, Q, p, 1);
    assert VariationBetween(ins, s, v1, v2, L0, lo1, hi) == Sum(1, |Q|, f);
    SingleScore(ins, s, v1, v2, p, Q, 0);
    assert SingleVariation(ins, s, v1, v2) == f(0);
    HeadAndTail(f, |Q|, SingleVariation(ins, s, v1, v2), VariationBetween(ins, s, v1, v2, L0, lo1, hi));
    GetVariationUnfold(ins, s, v1, v2, L0, p, lo, lo1, hi);
  }

  /** A sum from 0 is its first summand plus the rest, both named. */
  lemma HeadAndTail(f: int -> int, n: int, head: int, tail: int)
    requires 0 < n && head == f(0) && tail == Sum(1, n, f)
    ensures Sum(0, n, f) == head + tail
  {
    SumFront(0, n, f);
  }
}
