/** The from-scratch count (__recalculateScore) computes the crossing number
    and the matrix of cell counts; recalculateScore, getScore and swap
    therefore leave a consistent solution behind. */
module RecountProofs {
  import opened Sums
  import opened GraphModel
  import opened Crossing
  import opened PairSums
  import opened Solutions

  /** Matrices with equal cells are equal. */
  lemma MatrixEq(A: seq<seq<int>>, B: seq<seq<int>>, n: int)
    requires IsMatrix(A, n) && IsMatrix(B, n)
    requires forall c, d :: 0 <= c < n && 0 <= d < n ==> A[c][d] == B[c][d]
    ensures A == B
  {
    forall c | 0 <= c < n ensures A[c] == B[c] {
      assert forall d :: 0 <= d < n ==> A[c][d] == B[c][d];
    }
  }

  /** addMatrixCut adds both hits of the pair to every cell. */
  lemma AddMatrixCutCell(M: seq<seq<int>>, e: Edge, f: Edge, c: int, d: int)
    requires IsMatrix(M, |M|) && EdgeIn(e, |M|) && EdgeIn(f, |M|)
    requires 0 <= c < |M| && 0 <= d < |M|
    ensures AddMatrixCut(M, e, f)[c][d] == M[c][d] + Hit(e, f, c, d)
  {
  }

  /** addMatrixNonCut adds the hits below the diagonal. */
  lemma AddMatrixNonCutCell(M: seq<seq<int>>, e: Edge, f: Edge, c: int, d: int)
    requires IsMatrix(M, |M|) && EdgeIn(e, |M|) && EdgeIn(f, |M|)
    requires 0 <= c < |M| && 0 <= d < |M|
    ensures AddMatrixNonCut(M, e, f)[c][d] ==
      M[c][d] + (if e.source != f.source && e.target != f.target then Hit(e, f, d, c) else 0)
  {
  }

  /** One visited pair adds exactly its contribution to every cell. */
  lemma RecountStepCell(M: seq<seq<int>>, p: seq<int>, e: Edge, f: Edge, c: int, d: int)
    requires IsMatrix(M, |M|) && EdgeIn(e, |M|) && EdgeIn(f, |M|)
    requires 0 <= c < |M| && 0 <= d < |M|
    ensures (if Cut(p, e, f) then AddMatrixCut(M, e, f) else AddMatrixNonCut(M, e, f))[c][d]
      == M[c][d] + Contrib(p, e, f, c, d)
  {
    if Cut(p, e, f) {
      AddMatrixCutCell(M, e, f, c, d);
      assert e.source != f.source && e.target != f.target;
    } else {
      AddMatrixNonCutCell(M, e, f, c, d);
    }
  }

  /** The score and matrix after visiting pair (i, j), which the loop then
      resumes from at (i, j + 1). */
  lemma RecountPairsNext(L: seq<Edge>, p: seq<int>, i: nat, j: nat, score: int, M: seq<seq<int>>) returns (next: (int, seq<seq<int>>))
    requires IsMatrix(M, |M|) && EdgesIn(L, |M|) && i < |L| && j < |L|
    ensures IsMatrix(next.1, |M|) && |next.1| == |M|
    ensures next.0 == score + CutW(p)(L[i], L[j])
    ensures RecountPairs(L, p, i, j, score, M) == RecountPairs(L, p, i, j + 1, next.0, next.1)
  {
    assert L[i] in L && L[j] in L;
    if Cut(p, L[i], L[j]) {
      next := (score + 1, AddMatrixCut(M, L[i], L[j]));
    } else {
      next := (score, AddMatrixNonCut(M, L[i], L[j]));
    }
  }

  /** The pair loop of one layer, resumed at (i, j), adds the crossings of
      the pairs still to visit. */
  lemma {:induction false} RecountPairsScore(L: seq<Edge>, p: seq<int>, i: nat, j: nat, score: int, M: seq<seq<int>>)
    requires IsMatrix(M, |M|) && EdgesIn(L, |M|) && i < j
    ensures RecountPairs(L, p, i, j, score, M).0 ==
      score + RowTail(L, CutW(p), i, j) + TriFrom(L, CutW(p), i + 1)
    decreases |L| - i, |L| - j
  {
    var g := CutW(p);
    if i >= |L| {
      RowTailEmpty(L, g, i, j);
      TriFromEmpty(L, g, i + 1);
    } else if j >= |L| {
      RowTailEmpty(L, g, i, j);
      RecountPairsScore(L, p, i + 1, i + 2, score, M);
      if i + 1 < |L| {
        TriFromStep(L, g, i + 1);
      } else {
        RowTailEmpty(L, g, i + 1, i + 2);
        TriFromEmpty(L, g, i + 2);
      }
    } else {
      RowTailStep(L, g, i, j);
      var next := RecountPairsNext(L, p, i, j, score, M);
      RecountPairsScore(L, p, i, j + 1, next.0, next.1);
    }
  }

  /** The same for one cell of the matrix. */
  lemma {:induction false} RecountPairsCell(L: seq<Edge>, p: seq<int>, i: nat, j: nat, score: int, M: seq<seq<int>>, c: int, d: int)
    requires IsMatrix(M, |M|) && EdgesIn(L, |M|) && i < j
    requires 0 <= c < |M| && 0 <= d < |M|
    ensures RecountPairs(L, p, i, j, score, M).1[c][d] ==
      M[c][d] + RowTail(L, CellW(p, c, d), i, j) + TriFrom(L, CellW(p, c, d), i + 1)
    decreases |L| - i, |L| - j
  {
    var g := CellW(p, c, d);
    if i >= |L| {
      RowTailEmpty(L, g, i, j);
      TriFromEmpty(L, g, i + 1);
    } else if j >= |L| {
      RowTailEmpty(L, g, i, j);
      RecountPairsCell(L, p, i + 1, i + 2, score, M, c, d);
      if i + 1 < |L| {
        TriFromStep(L, g, i + 1);
      } else {
        RowTailEmpty(L, g, i + 1, i + 2);
        TriFromEmpty(L, g, i + 2);
      }
    } else {
      RowTailStep(L, g, i, j);
      assert L[i] in L && L[j] in L;
      RecountStepCell(M, p, L[i], L[j], c, d);
      if Cut(p, L[i], L[j]) {
        RecountPairsCell(L, p, i, j + 1, score + 1, AddMatrixCut(M, L[i], L[j]), c, d);
      } else {
        RecountPairsCell(L, p, i, j + 1, score, AddMatrixNonCut(M, L[i], L[j]), c, d);
      }
    }
  }

  /** Started at (0, 1), the pair loop visits every pair of the layer once. */
  lemma RecountFromStart(L: seq<Edge>, g: (Edge, Edge) -> int)
    ensures RowTail(L, g, 0, 1) + TriFrom(L, g, 1) == Pairs(L, g)
  {
    TriFromPairs(L, g);
    if |L| > 0 {
      TriFromStep(L, g, 0);
    } else {
      RowTailEmpty(L, g, 0, 1);
    }
  }

  lemma ShortEdgesIn(ins: Instance, h: int)
    requires ShortEdgesInRange(ins)
    ensures EdgesIn(ShortEdgesOfLayer(ins, h), ins.totalNumVertices)
  {
  }

  /** The pair loop over one layer counts its crossing pairs. */
  lemma LayerPairsScore(L: seq<Edge>, p: seq<int>, score: int, M: seq<seq<int>>)
    requires IsMatrix(M, |M|) && EdgesIn(L, |M|)
    ensures RecountPairs(L, p, 0, 1, score, M).0 == score + Pairs(L, CutW(p))
  {
    RecountPairsScore(L, p, 0, 1, score, M);
    RecountFromStart(L, CutW(p));
  }

  /** The pair loop over one layer adds each cell's count of that layer. */
  lemma LayerPairsCell(L: seq<Edge>, p: seq<int>, score: int, M: seq<seq<int>>, c: int, d: int)
    requires IsMatrix(M, |M|) && EdgesIn(L, |M|)
    requires 0 <= c < |M| && 0 <= d < |M|
    ensures RecountPairs(L, p, 0, 1, score, M).1[c][d] == M[c][d] + Pairs(L, CellW(p, c, d))
  {
    RecountPairsCell(L, p, 0, 1, score, M, c, d);
    RecountFromStart(L, CellW(p, c, d));
  }

  /** One round of the layer loop: the pair loop over layer h, then the rest. */
  lemma RecountLayersUnfold(ins: Instance, p: seq<int>, h: int, score: int, M: seq<seq<int>>)
    requires ShortEdgesInRange(ins) && IsMatrix(M, ins.totalNumVertices) && 0 <= h < ins.numberOfLayers
    ensures EdgesIn(ShortEdgesOfLayer(ins, h), |M|)
    ensures RecountLayers(ins, p, h, score, M) ==
      RecountLayers(ins, p, h + 1, RecountPairs(ShortEdgesOfLayer(ins, h), p, 0, 1, score, M).0,
        RecountPairs(ShortEdgesOfLayer(ins, h), p, 0, 1, score, M).1)
  {
    ShortEdgesIn(ins, h);
  }

  /** The per-layer sum from h is layer h's pairs plus the sum from h + 1. */
  lemma LayerSumStep(E: seq<Edge>, layerOf: seq<int>, g: (Edge, Edge) -> int, h: int, nl: int)
    requires h < nl
    ensures Sum(h, nl, LayerFn(E, layerOf, g)) ==
      Pairs(EdgesFromLayer(E, layerOf, h), g) + Sum(h + 1, nl, LayerFn(E, layerOf, g))
  {
    SumFront(h, nl, LayerFn(E, layerOf, g));
  }

  /** The layer loop from layer h on adds the crossings of those layers. */
  lemma {:induction false} RecountLayersScore(ins: Instance, p: seq<int>, h: int, score: int, M: seq<seq<int>>)
    requires ShortEdgesInRange(ins) && IsMatrix(M, ins.totalNumVertices) && 0 <= h
    ensures RecountLayers(ins, p, h, score, M).0 ==
      score + Sum(h, ins.numberOfLayers, LayerFn(ins.shortEdges, ins.layerOf, CutW(p)))
    decreases ins.numberOfLayers - h
  {
    var nl := ins.numberOfLayers;
    var g := CutW(p);
    if h < nl {
      var L := ShortEdgesOfLayer(ins, h);
      RecountLayersUnfold(ins, p, h, score, M);
      var step := RecountPairs(L, p, 0, 1, score, M);
      LayerPairsScore(L, p, score, M);
      RecountLayersScore(ins, p, h + 1, step.0, step.1);
      LayerSumStep(ins.shortEdges, ins.layerOf, g, h, nl);
    }
  }

  lemma {:induction false} RecountLayersCell(ins: Instance, p: seq<int>, h: int, score: int, M: seq<seq<int>>, c: int, d: int)
    requires ShortEdgesInRange(ins) && IsMatrix(M, ins.totalNumVertices) && 0 <= h
    requires 0 <= c < ins.totalNumVertices && 0 <= d < ins.totalNumVertices
    ensures RecountLayers(ins, p, h, score, M).1[c][d] ==
      M[c][d] + Sum(h, ins.numberOfLayers, LayerFn(ins.shortEdges, ins.layerOf, CellW(p, c, d)))
    decreases ins.numberOfLayers - h
  {
    var nl := ins.numberOfLayers;
    var g := CellW(p, c, d);
    if h < nl {
      var L := ShortEdgesOfLayer(ins, h);
      RecountLayersUnfold(ins, p, h, score, M);
      var step := RecountPairs(L, p, 0, 1, score, M);
      LayerPairsCell(L, p, score, M, c, d);
      RecountLayersCell(ins, p, h + 1, step.0, step.1, c, d);
      LayerSumStep(ins.shortEdges, ins.layerOf, g, h, nl);
    }
  }

  /** Counting onto a matrix M yields the crossing number and adds every
      cell's count to M. */
  lemma CountOntoCorrect(ins: Instance, s: Solution, M: seq<seq<int>>)
    requires WellFormed(ins) && Shaped(ins, s) && IsMatrix(M, ins.totalNumVertices)
    ensures CountOnto(ins, s, M).0 == CrossingsOf(ins, s)
    ensures forall c, d :: 0 <= c < ins.totalNumVertices && 0 <= d < ins.totalNumVertices ==>
      CountOnto(ins, s, M).1[c][d] == M[c][d] + CountMatrixOf(ins, s)[c][d]
  {
    var p := Positions(ins, s);
    var E := ins.shortEdges;
    var nl := ins.numberOfLayers;
    RecountLayersScore(ins, p, 0, 0, M);
    LayerSplit(E, ins.layerOf, nl, CutW(p));
    forall c, d | 0 <= c < ins.totalNumVertices && 0 <= d < ins.totalNumVertices
      ensures CountOnto(ins, s, M).1[c][d] == M[c][d] + CountMatrixOf(ins, s)[c][d]
    {
      RecountLayersCell(ins, p, 0, 0, M, c, d);
      LayerSplit(E, ins.layerOf, nl, CellW(p, c, d));
    }
  }

  /** recalculateScore returns the crossing number and leaves the matrix a
      from-scratch count produces, whatever the matrix held before. */
  lemma RecalculateScoreCorrect(ins: Instance, s: Solution)
    requires WellFormed(ins) && Shaped(ins, s)
    ensures RecalculateScore(ins, s).1 == CrossingsOf(ins, s)
    ensures RecalculateScore(ins, s).0.cuts == CountMatrixOf(ins, s)
  {
    var n := ins.totalNumVertices;
    CountOntoCorrect(ins, s, ZeroMatrix(n));
    MatrixEq(RecalculateScore(ins, s).0.cuts, CountMatrixOf(ins, s), n);
  }

  /** getScore on a freshly built embedding (score marker IntMax, matrix all
      zero) makes the solution consistent; on any other it returns the
      cached score and changes nothing. */
  lemma GetScoreCorrect(ins: Instance, s: Solution)
    requires Placed(ins, s)
    requires s.objective == IntMax
    requires forall c, d :: 0 <= c < ins.totalNumVertices && 0 <= d < ins.totalNumVertices ==> s.cuts[c][d] == 0
    ensures Consistent(ins, GetScore(ins, s).0)
    ensures GetScore(ins, s).1 == CrossingsOf(ins, s)
  {
    var n := ins.totalNumVertices;
    CountOntoCorrect(ins, s, s.cuts);
    var r := GetScore(ins, s).0;
    assert Positions(ins, r) == Positions(ins, s);
    MatrixEq(r.cuts, CountMatrixOf(ins, s), n);
  }

  /** swap exchanges the two vertices' places and leaves a consistent solution. */
  lemma SwapCorrect(ins: Instance, s: Solution, v1: int, v2: int)
    requires Placed(ins, s) && 0 <= v1 < ins.totalNumVertices && 0 <= v2 < ins.totalNumVertices
    requires ins.layerOf[v1] == ins.layerOf[v2]
    ensures Consistent(ins, Swap(ins, s, v1, v2))
    ensures PositionOf(ins, Swap(ins, s, v1, v2), v1) == PositionOf(ins, s, v2)
    ensures PositionOf(ins, Swap(ins, s, v1, v2), v2) == PositionOf(ins, s, v1)
    ensures forall u :: 0 <= u < ins.totalNumVertices && u != v1 && u != v2 ==>
      PositionOf(ins, Swap(ins, s, v1, v2), u) == PositionOf(ins, s, u)
  {
    var s1 := Exchange(ins, s, v1, v2);
    ExchangePlaced(ins, s, v1, v2);
    RecalculateScoreCorrect(ins, s1);
    var r := Swap(ins, s, v1, v2);
    assert Positions(ins, r) == Positions(ins, s1);
  }
}
