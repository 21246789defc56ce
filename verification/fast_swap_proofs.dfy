/** fastSwap and getVariation agree with a from-scratch count: after
    fastSwap(v1, v2) the cached score and every matrix cell are what
    recalculateScore would compute for the swapped drawing, and
    getVariation(v1, v2) is the change of the crossing number. */
module FastSwapProofs {
  import opened Sums
  import opened GraphModel
  import opened Crossing
  import opened PairSums
  import opened Solutions
  import opened RecountProofs
  import opened SwapDelta
  import opened FlipLists

  // ---------------------------------------------------------------------
  // updateMatrix, cell by cell

  /** What one step of updateMatrix adds to cell (c, d): the pair's
      contribution under the current positions, less the target-pair part of
      its contribution with the positions of x and y exchanged. */
  function StepDelta(p: seq<int>, x: int, a: int, y: int, b: int, c: int, d: int): int
  {
    Contrib(p, Edge(x, a), Edge(y, b), c, d)
      - ContribTB(IsCutByPos(Pos(p, y), Pos(p, a), Pos(p, x), Pos(p, b)), Edge(x, a), Edge(y, b), c, d)
  }

  /** removeMatrixCut / removeMatrixNonCut take the target-pair part of a
      contribution away. */
  lemma RemoveCell(M: seq<seq<int>>, e: Edge, f: Edge, cut: bool, c: int, d: int)
    requires IsMatrix(M, |M|) && EdgeIn(e, |M|) && EdgeIn(f, |M|)
    requires 0 <= c < |M| && 0 <= d < |M|
    requires cut ==> e.target != f.target
    ensures (if cut then RemoveMatrixCut(M, e, f) else RemoveMatrixNonCut(M, e, f))[c][d]
      == M[c][d] - ContribTB(cut, e, f, c, d)
  {
  }

  lemma UpdateStepCell(M: seq<seq<int>>, p: seq<int>, x: int, a: int, y: int, b: int, c: int, d: int)
    requires IsMatrix(M, |M|) && EdgeIn(Edge(x, a), |M|) && EdgeIn(Edge(y, b), |M|)
    requires 0 <= c < |M| && 0 <= d < |M|
    ensures UpdateStep(M, p, x, a, y, b)[c][d] == M[c][d] + StepDelta(p, x, a, y, b, c, d)
  {
    var e := Edge(x, a);
    var f := Edge(y, b);
    RecountStepCell(M, p, e, f, c, d);
    var M1 := if Cut(p, e, f) then AddMatrixCut(M, e, f) else AddMatrixNonCut(M, e, f);
    RemoveCell(M1, e, f, IsCutByPos(Pos(p, y), Pos(p, a), Pos(p, x), Pos(p, b)), c, d);
  }

  /** k => G(L[k]). */
  function ListFn(L: seq<int>, G: int -> int): int -> int
  {
    k => if 0 <= k < |L| then G(L[k]) else 0
  }

  /** Sum of G over the elements of L. */
  function ListSum(L: seq<int>, G: int -> int): int
  {
    Sum(0, |L|, ListFn(L, G))
  }

  lemma ListSumLast(L: seq<int>, G: int -> int)
    requires |L| > 0
    ensures ListSum(L, G) == ListSum(L[..|L| - 1], G) + G(L[|L| - 1])
  {
    SumExt(0, |L| - 1, ListFn(L, G), ListFn(L[..|L| - 1], G));
  }

  lemma ListSumSnoc(A: seq<int>, b: bool, v: int, G: int -> int)
    ensures ListSum(A + (if b then [v] else []), G) == ListSum(A, G) + (if b then G(v) else 0)
  {
    if b {
      ListSumLast(A + [v], G);
      assert (A + [v])[..|A|] == A;
    } else {
      assert A + [] == A;
    }
  }

  function StepFn(p: seq<int>, x: int, a: int, y: int, c: int, d: int): int -> int
  {
    b => StepDelta(p, x, a, y, b, c, d)
  }

  function InnerFn(p: seq<int>, x: int, y: int, Lb: seq<int>, c: int, d: int): int -> int
  {
    a => ListSum(Lb, StepFn(p, x, a, y, c, d))
  }

  lemma {:induction false} UpdateInnerCell(M: seq<seq<int>>, p: seq<int>, x: int, a: int, y: int, Lb: seq<int>, c: int, d: int)
    requires IsMatrix(M, |M|) && 0 <= x < |M| && 0 <= a < |M| && 0 <= y < |M| && AllIn(Lb, |M|)
    requires 0 <= c < |M| && 0 <= d < |M|
    ensures UpdateInner(M, p, x, a, y, Lb)[c][d] == M[c][d] + ListSum(Lb, StepFn(p, x, a, y, c, d))
    decreases |Lb|
  {
    if |Lb| > 0 {
      var L1 := Lb[..|Lb| - 1];
      assert AllIn(L1, |M|);
      UpdateInnerCell(M, p, x, a, y, L1, c, d);
      UpdateStepCell(UpdateInner(M, p, x, a, y, L1), p, x, a, y, Lb[|Lb| - 1], c, d);
      ListSumLast(Lb, StepFn(p, x, a, y, c, d));
    }
  }

  /** updateMatrix adds, to every cell, StepDelta summed over all pairs of
      list elements. */
  lemma {:induction false} UpdateMatrixCell(M: seq<seq<int>>, p: seq<int>, x: int, y: int, La: seq<int>, Lb: seq<int>, c: int, d: int)
    requires IsMatrix(M, |M|) && 0 <= x < |M| && 0 <= y < |M| && AllIn(La, |M|) && AllIn(Lb, |M|)
    requires 0 <= c < |M| && 0 <= d < |M|
    ensures UpdateMatrix(M, p, x, y, La, Lb)[c][d] == M[c][d] + ListSum(La, InnerFn(p, x, y, Lb, c, d))
    decreases |La|
  {
    if |La| > 0 {
      var L1 := La[..|La| - 1];
      assert AllIn(L1, |M|);
      UpdateMatrixCell(M, p, x, y, L1, Lb, c, d);
      UpdateInnerCell(UpdateMatrix(M, p, x, y, L1, Lb), p, x, La[|La| - 1], y, Lb, c, d);
      ListSumLast(La, InnerFn(p, x, y, Lb, c, d));
    }
  }

  // ---------------------------------------------------------------------
  // From adjacency lists to sums over the edge list

  /** i => G(target of E[i]) for the edges leaving x. */
  function SrcFn(E: seq<Edge>, x: int, G: int -> int): int -> int
  {
    i => if 0 <= i < |E| && E[i].source == x then G(E[i].target) else 0
  }

  /** i => G(source of E[i]) for the edges entering x. */
  function TgtFn(E: seq<Edge>, x: int, G: int -> int): int -> int
  {
    i => if 0 <= i < |E| && E[i].target == x then G(E[i].source) else 0
  }

  lemma {:induction false} SourceListSum(E: seq<Edge>, x: int, G: int -> int)
    ensures ListSum(SourceList(E, x), G) == Sum(0, |E|, SrcFn(E, x, G))
  {
    if |E| > 0 {
      var E1 := E[..|E| - 1];
      var last := E[|E| - 1];
      SourceListSum(E1, x, G);
      ListSumSnoc(SourceList(E1, x), last.source == x, last.target, G);
      SumExt(0, |E1|, SrcFn(E1, x, G), SrcFn(E, x, G));
    }
  }

  lemma {:induction false} TargetListSum(E: seq<Edge>, x: int, G: int -> int)
    ensures ListSum(TargetList(E, x), G) == Sum(0, |E|, TgtFn(E, x, G))
  {
    if |E| > 0 {
      var E1 := E[..|E| - 1];
      var last := E[|E| - 1];
      TargetListSum(E1, x, G);
      ListSumSnoc(TargetList(E1, x), last.target == x, last.source, G);
      SumExt(0, |E1|, TgtFn(E1, x, G), TgtFn(E, x, G));
    }
  }

  /** StepDelta over the pairs (E[i], E[j]) with sources x and y. */
  function DownW(E: seq<Edge>, p: seq<int>, x: int, y: int, c: int, d: int): (int, int) -> int
  {
    (i, j) => if 0 <= i < |E| && 0 <= j < |E| && E[i].source == x && E[j].source == y
              then StepDelta(p, x, E[i].target, y, E[j].target, c, d) else 0
  }

  /** StepDelta over the pairs (E[i], E[j]) with targets x and y. */
  function UpW(E: seq<Edge>, p: seq<int>, x: int, y: int, c: int, d: int): (int, int) -> int
  {
    (i, j) => if 0 <= i < |E| && 0 <= j < |E| && E[i].target == x && E[j].target == y
              then StepDelta(p, x, E[i].source, y, E[j].source, c, d) else 0
  }

  lemma DownSum(E: seq<Edge>, p: seq<int>, x: int, y: int, c: int, d: int)
    ensures ListSum(SourceList(E, x), InnerFn(p, x, y, SourceList(E, y), c, d)) == Square(|E|, DownW(E, p, x, y, c, d))
  {
    var H := DownW(E, p, x, y, c, d);
    var F := InnerFn(p, x, y, SourceList(E, y), c, d);
    SourceListSum(E, x, F);
    forall i | 0 <= i < |E| ensures SrcFn(E, x, F)(i) == Row(0, |E|, H)(i) {
      if E[i].source == x {
        SourceListSum(E, y, StepFn(p, x, E[i].target, y, c, d));
        SumExt(0, |E|, SrcFn(E, y, StepFn(p, x, E[i].target, y, c, d)), Entry(H, i));
      } else {
        SumZero(0, |E|, Entry(H, i));
      }
    }
    SumExt(0, |E|, SrcFn(E, x, F), Row(0, |E|, H));
  }

  lemma UpSum(E: seq<Edge>, p: seq<int>, x: int, y: int, c: int, d: int)
    ensures ListSum(TargetList(E, x), InnerFn(p, x, y, TargetList(E, y), c, d)) == Square(|E|, UpW(E, p, x, y, c, d))
  {
    var H := UpW(E, p, x, y, c, d);
    var F := InnerFn(p, x, y, TargetList(E, y), c, d);
    TargetListSum(E, x, F);
    forall i | 0 <= i < |E| ensures TgtFn(E, x, F)(i) == Row(0, |E|, H)(i) {
      if E[i].target == x {
        TargetListSum(E, y, StepFn(p, x, E[i].source, y, c, d));
        SumExt(0, |E|, TgtFn(E, y, StepFn(p, x, E[i].source, y, c, d)), Entry(H, i));
      } else {
        SumZero(0, |E|, Entry(H, i));
      }
    }
    SumExt(0, |E|, TgtFn(E, x, F), Row(0, |E|, H));
  }

  /** fastSwapRecalculateScore(v1, v2), with x < y the ordered pair: the
      score moves by the pair's cell difference; the pair's two cells are
      cleared and every cell then receives StepDelta over the pairs of edges
      leaving x and y and over those entering x and y. */
  lemma FsrEffect(ins: Instance, s: Solution, v1: int, v2: int)
    requires WellFormed(ins) && Shaped(ins, s)
    requires 0 <= v1 < ins.totalNumVertices && 0 <= v2 < ins.totalNumVertices
    ensures var x := if v1 > v2 then v2 else v1;
            var y := if v1 > v2 then v1 else v2;
            var r := FastSwapRecalculateScore(ins, s, v1, v2);
            var E := ins.shortEdges;
            var p := Positions(ins, s);
            && r.objective == s.objective + s.cuts[y][x] - s.cuts[x][y]
            && forall c, d :: 0 <= c < ins.totalNumVertices && 0 <= d < ins.totalNumVertices ==>
                 r.cuts[c][d] == (if (c == x && d == y) || (c == y && d == x) then 0 else s.cuts[c][d])
                   + Square(|E|, DownW(E, p, x, y, c, d)) + Square(|E|, UpW(E, p, x, y, c, d))
  {
    var n := ins.totalNumVertices;
    var E := ins.shortEdges;
    var x := if v1 > v2 then v2 else v1;
    var y := if v1 > v2 then v1 else v2;
    var p := Positions(ins, s);
    AdjacentInRange(ins, x, Source);
    AdjacentInRange(ins, y, Source);
    AdjacentInRange(ins, x, Target);
    AdjacentInRange(ins, y, Target);
    assert AdjacentList(ins, x, Source) == SourceList(E, x);
    assert AdjacentList(ins, y, Source) == SourceList(E, y);
    assert AdjacentList(ins, x, Target) == TargetList(E, x);
    assert AdjacentList(ins, y, Target) == TargetList(E, y);
    var M0 := ClearCell(ClearCell(s.cuts, x, y), y, x);
    var M1 := UpdateMatrix(M0, p, x, y, SourceList(E, x), SourceList(E, y));
    var M2 := UpdateMatrix(M1, p, x, y, TargetList(E, x), TargetList(E, y));
    assert FastSwapRecalculateScore(ins, s, v1, v2).cuts == M2;
    forall c, d | 0 <= c < n && 0 <= d < n
      ensures M2[c][d] == (if (c == x && d == y) || (c == y && d == x) then 0 else s.cuts[c][d])
                 + Square(|E|, DownW(E, p, x, y, c, d)) + Square(|E|, UpW(E, p, x, y, c, d))
    {
      UpdateMatrixCell(M0, p, x, y, SourceList(E, x), SourceList(E, y), c, d);
      UpdateMatrixCell(M1, p, x, y, TargetList(E, x), TargetList(E, y), c, d);
      DownSum(E, p, x, y, c, d);
      UpSum(E, p, x, y, c, d);
    }
  }

  // ---------------------------------------------------------------------
  // What the corrections amount to

  /** Reading both edges backwards leaves a contribution unchanged. */
  lemma ContribRev(p: seq<int>, e: Edge, f: Edge, c: int, d: int)
    ensures Contrib(p, Edge(e.target, e.source), Edge(f.target, f.source), c, d) == Contrib(p, e, f, c, d)
  {
    IsCutByPosSymmetric(Pos(p, e.source), Pos(p, e.target), Pos(p, f.source), Pos(p, f.target));
  }

  /** Where a pair's own cell is concerned, the correction is the pair's
      contribution under the current positions. */
  lemma OwnPoint(E: seq<Edge>, lay: seq<int>, nl: int, n: int, p2: seq<int>, L0: int, x: int, y: int, c: int, d: int, i: int, j: int)
    requires Layered(E, lay, nl, n) && 0 <= x < n && 0 <= y < n && lay[x] == L0 && lay[y] == L0
    requires (c == x && d == y) || (c == y && d == x)
    requires 0 <= i < |E| && 0 <= j < |E|
    ensures DownW(E, p2, x, y, c, d)(i, j) + UpW(E, p2, x, y, c, d)(i, j) == OrdW(E, x, y, Restrict(lay, nl, CellW(p2, c, d)))(i, j)
  {
    var e, f := E[i], E[j];
    assert e in E && f in E;
    assert lay[e.target] == lay[e.source] + 1 && lay[f.target] == lay[f.source] + 1;
    if e.source == x && f.source == y {
      assert Edge(x, e.target) == e && Edge(y, f.target) == f;
      assert e.target != x && e.target != y;
      assert 0 <= lay[x] < nl && SameLayerIn(lay, nl, e, f);
      assert HitT(e, f, x, y) == 0;
      assert UpW(E, p2, x, y, c, d)(i, j) == 0;
      assert OrdInd(e, f, x, y) == 1;
      assert DownW(E, p2, x, y, c, d)(i, j) == StepDelta(p2, x, e.target, y, f.target, c, d) == Contrib(p2, e, f, c, d);
    } else if e.target == x && f.target == y {
      ContribRev(p2, e, f, c, d);
      assert e.source != x && e.source != y;
      assert 0 <= lay[e.source] < nl && SameLayerIn(lay, nl, e, f);
      assert Edge(e.target, e.source) == Edge(x, e.source) && Edge(f.target, f.source) == Edge(y, f.source);
      assert DownW(E, p2, x, y, c, d)(i, j) == 0;
      assert OrdInd(e, f, x, y) == 1;
      assert HitT(Edge(x, e.source), Edge(y, f.source), c, d) == 0 && HitT(Edge(x, e.source), Edge(y, f.source), d, c) == 0;
      assert UpW(E, p2, x, y, c, d)(i, j) == StepDelta(p2, x, e.source, y, f.source, c, d) == Contrib(p2, e, f, c, d);
    } else {
      assert DownW(E, p2, x, y, c, d)(i, j) == 0 && UpW(E, p2, x, y, c, d)(i, j) == 0;
      assert OrdInd(e, f, x, y) == 0;
    }
  }

  /** Elsewhere the correction is the change of the pair's contribution
      between the old and the current positions. */
  lemma OtherPoint(E: seq<Edge>, lay: seq<int>, nl: int, n: int, p: seq<int>, p2: seq<int>, L0: int,
                   x: int, y: int, c: int, d: int, i: int, j: int)
    requires Layered(E, lay, nl, n) && |p| == n && |p2| == n
    requires 0 <= x < y < n && lay[x] == L0 && lay[y] == L0
    requires p[x] != p[y] && p2[x] != p2[y] && Flipped(p, p2, x, y)
    requires forall v :: 0 <= v < n && lay[v] != L0 ==> p2[v] == p[v]
    requires !((c == x && d == y) || (c == y && d == x))
    requires 0 <= i < |E| && 0 <= j < |E|
    ensures DownW(E, p2, x, y, c, d)(i, j) + UpW(E, p2, x, y, c, d)(i, j) == OrdW(E, x, y, DeltaW(p, p2, c, d))(i, j)
  {
    var e, f := E[i], E[j];
    assert e in E && f in E;
    assert lay[e.target] == lay[e.source] + 1 && lay[f.target] == lay[f.source] + 1;
    if e.source == x && f.source == y {
      assert Edge(x, e.target) == e && Edge(y, f.target) == f;
      assert p2[e.target] == p[e.target] && p2[f.target] == p[f.target];
      IsCutByPosOrderOnly(p2[y], p2[e.target], p2[x], p2[f.target], p[x], p[e.target], p[y], p[f.target]);
      assert HitS(e, f, c, d) == 0 && HitS(e, f, d, c) == 0;
      assert e.target != x;
      assert UpW(E, p2, x, y, c, d)(i, j) == 0;
      assert OrdInd(e, f, x, y) == 1;
      assert IsCutByPos(Pos(p2, y), Pos(p2, e.target), Pos(p2, x), Pos(p2, f.target)) == Cut(p, e, f);
      assert ContribTB(Cut(p, e, f), e, f, c, d) == Contrib(p, e, f, c, d);
      assert DownW(E, p2, x, y, c, d)(i, j) == StepDelta(p2, x, e.target, y, f.target, c, d);
    } else if e.target == x && f.target == y {
      ContribRev(p2, e, f, c, d);
      assert p2[e.source] == p[e.source] && p2[f.source] == p[f.source];
      IsCutByPosOrderOnly(p2[y], p2[e.source], p2[x], p2[f.source], p[x], p[e.source], p[y], p[f.source]);
      IsCutByPosSymmetric(p[e.source], p[x], p[f.source], p[y]);
      assert HitT(e, f, c, d) == 0 && HitT(e, f, d, c) == 0;
      assert e.source != x;
      assert DownW(E, p2, x, y, c, d)(i, j) == 0;
      assert OrdInd(e, f, x, y) == 1;
      assert UpW(E, p2, x, y, c, d)(i, j) == StepDelta(p2, x, e.source, y, f.source, c, d);
    } else {
      assert DownW(E, p2, x, y, c, d)(i, j) == 0 && UpW(E, p2, x, y, c, d)(i, j) == 0;
      assert OrdInd(e, f, x, y) == 0;
    }
  }

  /** A pair's own cell, counted from scratch, as a sum over ordered pairs
      of edges. */
  lemma OwnCellSquare(E: seq<Edge>, lay: seq<int>, nl: int, n: int, p2: seq<int>, L0: int, x: int, y: int, c: int, d: int)
    requires Layered(E, lay, nl, n) && 0 <= x < y < n && lay[x] == L0 && lay[y] == L0
    requires (c == x && d == y) || (c == y && d == x)
    ensures CellCount(E, lay, nl, p2, c, d) == Square(|E|, OrdW(E, x, y, Restrict(lay, nl, CellW(p2, c, d))))
  {
    var G := Restrict(lay, nl, CellW(p2, c, d));
    forall i, j | 0 <= i < |E| && 0 <= j < |E| ensures G(E[i], E[j]) == G(E[j], E[i]) {
      ContribSym(p2, E[i], E[j], c, d);
      assert SameLayerIn(lay, nl, E[i], E[j]) == SameLayerIn(lay, nl, E[j], E[i]);
    }
    forall i, j | 0 <= i < |E| && 0 <= j < |E| && G(E[i], E[j]) != 0 ensures Hit(E[i], E[j], x, y) == 1 {
      var e, f := E[i], E[j];
      assert e in E && f in E;
      assert lay[e.target] == lay[e.source] + 1 && lay[f.target] == lay[f.source] + 1;
      assert Hit(e, f, x, y) != 0;
      if HitS(e, f, x, y) == 1 {
        assert e.target != x && e.target != y;
      }
    }
    TriToSquare(E, x, y, G);
  }

  /** The two corrections of fastSwapRecalculateScore rebuild a pair's own
      cell from scratch. */
  lemma FsrCellsOwn(E: seq<Edge>, lay: seq<int>, nl: int, n: int, p2: seq<int>, L0: int, x: int, y: int, c: int, d: int)
    requires Layered(E, lay, nl, n) && 0 <= x < y < n && lay[x] == L0 && lay[y] == L0
    requires (c == x && d == y) || (c == y && d == x)
    ensures Square(|E|, DownW(E, p2, x, y, c, d)) + Square(|E|, UpW(E, p2, x, y, c, d)) == CellCount(E, lay, nl, p2, c, d)
  {
    forall i, j | 0 <= i < |E| && 0 <= j < |E|
      ensures OrdW(E, x, y, Restrict(lay, nl, CellW(p2, c, d)))(i, j) == DownW(E, p2, x, y, c, d)(i, j) + UpW(E, p2, x, y, c, d)(i, j)
    {
      OwnPoint(E, lay, nl, n, p2, L0, x, y, c, d, i, j);
    }
    RowsAdd(|E|, DownW(E, p2, x, y, c, d), UpW(E, p2, x, y, c, d), OrdW(E, x, y, Restrict(lay, nl, CellW(p2, c, d))));
    OwnCellSquare(E, lay, nl, n, p2, L0, x, y, c, d);
  }

  /** Elsewhere they add the change the pair's flip makes to the cell. */
  lemma FsrCellsOther(E: seq<Edge>, lay: seq<int>, nl: int, n: int, p: seq<int>, p2: seq<int>, L0: int,
                      x: int, y: int, c: int, d: int)
    requires Layered(E, lay, nl, n) && |p| == n && |p2| == n
    requires 0 <= x < y < n && lay[x] == L0 && lay[y] == L0
    requires p[x] != p[y] && p2[x] != p2[y] && Flipped(p, p2, x, y)
    requires forall v :: 0 <= v < n && lay[v] != L0 ==> p2[v] == p[v]
    requires !((c == x && d == y) || (c == y && d == x))
    ensures Square(|E|, DownW(E, p2, x, y, c, d)) + Square(|E|, UpW(E, p2, x, y, c, d)) == Square(|E|, OrdW(E, x, y, DeltaW(p, p2, c, d)))
  {
    forall i, j | 0 <= i < |E| && 0 <= j < |E|
      ensures OrdW(E, x, y, DeltaW(p, p2, c, d))(i, j) == DownW(E, p2, x, y, c, d)(i, j) + UpW(E, p2, x, y, c, d)(i, j)
    {
      OtherPoint(E, lay, nl, n, p, p2, L0, x, y, c, d, i, j);
    }
    RowsAdd(|E|, DownW(E, p2, x, y, c, d), UpW(E, p2, x, y, c, d), OrdW(E, x, y, DeltaW(p, p2, c, d)));
  }

  /** One ordered pair of edges of CellFnOther. */
  lemma CellFnOtherPoint(E: seq<Edge>, lay: seq<int>, nl: int, n: int, p: seq<int>, p2: seq<int>, L0: int,
                         xk: int, yk: int, x: int, y: int, c: int, d: int, i: int, j: int)
    requires Layered(E, lay, nl, n)
    requires 0 <= xk < yk < n && lay[xk] == L0 && lay[yk] == L0
    requires 0 <= x < y < n && lay[x] == L0 && lay[y] == L0 && (xk, yk) != (x, y)
    requires (c == x && d == y) || (c == y && d == x)
    requires 0 <= i < |E| && 0 <= j < |E|
    ensures OrdW(E, xk, yk, DeltaW(p, p2, c, d))(i, j) == 0
  {
    var e, f := E[i], E[j];
    assert e in E && f in E;
    assert lay[e.target] == lay[e.source] + 1 && lay[f.target] == lay[f.source] + 1;
    if e.source == xk && f.source == yk {
      assert e.target != x && e.target != y;
      assert Hit(e, f, x, y) == 0;
    } else if e.target == xk && f.target == yk {
      assert e.source != x && e.source != y;
      assert Hit(e, f, x, y) == 0;
    } else {
      assert OrdInd(e, f, xk, yk) == 0;
    }
  }

  /** A listed pair's correction leaves the own cells of every other listed
      pair alone. */
  lemma CellFnOther(E: seq<Edge>, lay: seq<int>, nl: int, n: int, p: seq<int>, p2: seq<int>, L0: int,
                    Q: seq<(int, int)>, k: int, x: int, y: int, c: int, d: int)
    requires Layered(E, lay, nl, n) && QInLayer(lay, L0, Q) && 0 <= k < |Q|
    requires 0 <= x < y < n && lay[x] == L0 && lay[y] == L0 && QPair(Q, k) != (x, y)
    requires (c == x && d == y) || (c == y && d == x)
    ensures CellFn(E, p, p2, Q, c, d)(k) == 0
  {
    var xk, yk := QPair(Q, k).0, QPair(Q, k).1;
    forall i, j | 0 <= i < |E| && 0 <= j < |E| ensures OrdW(E, xk, yk, DeltaW(p, p2, c, d))(i, j) == 0 {
      CellFnOtherPoint(E, lay, nl, n, p, p2, L0, xk, yk, x, y, c, d, i, j);
    }
    SquareZero(|E|, OrdW(E, xk, yk, DeltaW(p, p2, c, d)));
  }

  // ---------------------------------------------------------------------
  // Pair by pair

  /** Both vertices of a listed pair are vertices. */
  lemma ListedInRange(E: seq<Edge>, lay: seq<int>, nl: int, n: int, p: seq<int>, p2: seq<int>, L0: int,
                      Q: seq<(int, int)>, K: int)
    requires StepReady(E, lay, nl, n, p, p2, L0, Q) && 0 <= K < |Q|
    ensures 0 <= Q[K].0 < n && 0 <= Q[K].1 < n
  {
    assert PairFlips(p, p2, QPair(Q, K));
  }

  /** The score step of the K-th pair: its two cells still hold their old
      counts, so their difference is the K-th term of ScoreDelta. */
  lemma ScoreStep(E: seq<Edge>, lay: seq<int>, nl: int, n: int, p: seq<int>, p2: seq<int>, L0: int, Q: seq<(int, int)>,
                  K: int, M: seq<seq<int>>, before: int, after: int)
    requires StepReady(E, lay, nl, n, p, p2, L0, Q) && 0 <= K < |Q|
    requires Progress(E, lay, nl, n, p, p2, Q, K, before, M)
    requires after == before + M[QPair(Q, K).1][QPair(Q, K).0] - M[QPair(Q, K).0][QPair(Q, K).1]
    ensures after == Crossings(E, lay, nl, p) + Sum(0, K + 1, ScoreFn(E, lay, nl, p, Q))
  {
    var x, y := QPair(Q, K).0, QPair(Q, K).1;
    forall k | 0 <= k < K ensures CellFn(E, p, p2, Q, y, x)(k) == 0 && CellFn(E, p, p2, Q, x, y)(k) == 0 {
      CellFnOther(E, lay, nl, n, p, p2, L0, Q, k, x, y, y, x);
      CellFnOther(E, lay, nl, n, p, p2, L0, Q, k, x, y, x, y);
    }
    SumZero(0, K, CellFn(E, p, p2, Q, y, x));
    SumZero(0, K, CellFn(E, p, p2, Q, x, y));
  }

  /** The matrix step of the K-th pair for cell (c, d). */
  lemma CellStep(E: seq<Edge>, lay: seq<int>, nl: int, n: int, p: seq<int>, p2: seq<int>, L0: int, Q: seq<(int, int)>,
                 K: int, c: int, d: int, before: int, after: int)
    requires StepReady(E, lay, nl, n, p, p2, L0, Q) && 0 <= K < |Q| && 0 <= c < n && 0 <= d < n
    requires before == CellCount(E, lay, nl, p, c, d) + Sum(0, K, CellFn(E, p, p2, Q, c, d))
    requires var x, y := QPair(Q, K).0, QPair(Q, K).1;
             after == (if (c == x && d == y) || (c == y && d == x) then 0 else before)
                      + Square(|E|, DownW(E, p2, x, y, c, d)) + Square(|E|, UpW(E, p2, x, y, c, d))
    ensures after == CellCount(E, lay, nl, p, c, d) + Sum(0, K + 1, CellFn(E, p, p2, Q, c, d))
  {
    var x, y := QPair(Q, K).0, QPair(Q, K).1;
    var F := CellFn(E, p, p2, Q, c, d);
    if (c == x && d == y) || (c == y && d == x) {
      FsrCellsOwn(E, lay, nl, n, p2, L0, x, y, c, d);
      forall k | 0 <= k < |Q| && k != K ensures F(k) == 0 {
        CellFnOther(E, lay, nl, n, p, p2, L0, Q, k, x, y, c, d);
      }
      SumSingle(0, K + 1, K, F);
      SumSingle(0, |Q|, K, F);
      CellDelta(E, lay, nl, n, p, p2, L0, Q, c, d);
    } else {
      assert PairFlips(p, p2, QPair(Q, K));
      FsrCellsOther(E, lay, nl, n, p, p2, L0, x, y, c, d);
    }
  }

  /** What correcting the ordered pair (x, y) does to the matrix: the pair's
      own two cells restart from 0, and every cell gains the crossings of
      its two columns between the layer below and the layer above. */
  ghost predicate CellsCorrected(E: seq<Edge>, p2: seq<int>, n: int, x: int, y: int, M: seq<seq<int>>, M2: seq<seq<int>>)
    requires IsMatrix(M, n) && IsMatrix(M2, n)
  {
    forall c, d :: 0 <= c < n && 0 <= d < n ==>
      M2[c][d] == (if (c == x && d == y) || (c == y && d == x) then 0 else M[c][d])
                  + Square(|E|, DownW(E, p2, x, y, c, d)) + Square(|E|, UpW(E, p2, x, y, c, d))
  }

  /** The matrix steps of the K-th pair, for every cell at once. */
  lemma MatrixStep(E: seq<Edge>, lay: seq<int>, nl: int, n: int, p: seq<int>, p2: seq<int>, L0: int, Q: seq<(int, int)>,
                   K: int, M: seq<seq<int>>, M2: seq<seq<int>>)
    requires StepReady(E, lay, nl, n, p, p2, L0, Q) && 0 <= K < |Q|
    requires IsMatrix(M, n) && IsMatrix(M2, n)
    requires forall c, d :: 0 <= c < n && 0 <= d < n ==>
               M[c][d] == CellCount(E, lay, nl, p, c, d) + Sum(0, K, CellFn(E, p, p2, Q, c, d))
    requires CellsCorrected(E, p2, n, QPair(Q, K).0, QPair(Q, K).1, M, M2)
    ensures forall c, d :: 0 <= c < n && 0 <= d < n ==>
              M2[c][d] == CellCount(E, lay, nl, p, c, d) + Sum(0, K + 1, CellFn(E, p, p2, Q, c, d))
  {
    forall c, d | 0 <= c < n && 0 <= d < n
      ensures M2[c][d] == CellCount(E, lay, nl, p, c, d) + Sum(0, K + 1, CellFn(E, p, p2, Q, c, d))
    {
      CellStep(E, lay, nl, n, p, p2, L0, Q, K, c, d, M[c][d], M2[c][d]);
    }
  }

  /** Score and matrix steps of the K-th pair together. */
  lemma PairStep(E: seq<Edge>, lay: seq<int>, nl: int, n: int, p: seq<int>, p2: seq<int>, L0: int, Q: seq<(int, int)>,
                 K: int, objective: int, M: seq<seq<int>>, objective2: int, M2: seq<seq<int>>)
    requires StepReady(E, lay, nl, n, p, p2, L0, Q) && 0 <= K < |Q|
    requires Progress(E, lay, nl, n, p, p2, Q, K, objective, M) && IsMatrix(M2, n)
    requires objective2 == objective + M[QPair(Q, K).1][QPair(Q, K).0] - M[QPair(Q, K).0][QPair(Q, K).1]
    requires CellsCorrected(E, p2, n, QPair(Q, K).0, QPair(Q, K).1, M, M2)
    ensures Progress(E, lay, nl, n, p, p2, Q, K + 1, objective2, M2)
  {
    ScoreStep(E, lay, nl, n, p, p2, L0, Q, K, M, objective, objective2);
    MatrixStep(E, lay, nl, n, p, p2, L0, Q, K, M, M2);
  }

  /** FsrEffect with the ordered pair and the positions named. */
  lemma FsrEffectAt(ins: Instance, t: Solution, v1: int, v2: int, x: int, y: int, p2: seq<int>)
    requires WellFormed(ins) && Shaped(ins, t) && Positions(ins, t) == p2
    requires 0 <= v1 < ins.totalNumVertices && 0 <= v2 < ins.totalNumVertices
    requires x == (if v1 > v2 then v2 else v1) && y == (if v1 > v2 then v1 else v2)
    ensures var r := FastSwapRecalculateScore(ins, t, v1, v2);
            && IsMatrix(r.cuts, ins.totalNumVertices)
            && r.objective == t.objective + t.cuts[y][x] - t.cuts[x][y]
            && CellsCorrected(ins.shortEdges, p2, ins.totalNumVertices, x, y, t.cuts, r.cuts)
  {
    FsrEffect(ins, t, v1, v2);
  }

  /** fastSwapRecalculateScore on the K-th listed pair advances the progress
      from K to K + 1. */
  lemma FsrStep(ins: Instance, t: Solution, p: seq<int>, p2: seq<int>, L0: int, Q: seq<(int, int)>, K: int)
    requires WellFormed(ins) && Shaped(ins, t) && Positions(ins, t) == p2
    requires StepReady(ins.shortEdges, ins.layerOf, ins.numberOfLayers, ins.totalNumVertices, p, p2, L0, Q) && 0 <= K < |Q|
    requires Progress(ins.shortEdges, ins.layerOf, ins.numberOfLayers, ins.totalNumVertices, p, p2, Q, K, t.objective, t.cuts)
    ensures 0 <= Q[K].0 < ins.totalNumVertices && 0 <= Q[K].1 < ins.totalNumVertices
    ensures var r := FastSwapRecalculateScore(ins, t, Q[K].0, Q[K].1);
            Progress(ins.shortEdges, ins.layerOf, ins.numberOfLayers, ins.totalNumVertices, p, p2, Q, K + 1, r.objective, r.cuts)
  {
    var x, y := QPair(Q, K).0, QPair(Q, K).1;
    assert 0 <= Q[K].0 < ins.totalNumVertices && 0 <= Q[K].1 < ins.totalNumVertices;
    var r := FastSwapRecalculateScore(ins, t, Q[K].0, Q[K].1);
    FsrEffectAt(ins, t, Q[K].0, Q[K].1, x, y, p2);
    PairStep(ins.shortEdges, ins.layerOf, ins.numberOfLayers, ins.totalNumVertices, p, p2, L0, Q, K,
             t.objective, t.cuts, r.objective, r.cuts);
  }

  // ---------------------------------------------------------------------
  // The pairs fastSwap visits

  /** Correcting fastSwap's pairs keeps the embedding. */
  lemma FsrPositions(ins: Instance, t: Solution, v1: int, v2: int)
    requires Placed(ins, t) && 0 <= v1 < ins.totalNumVertices && 0 <= v2 < ins.totalNumVertices
    ensures Placed(ins, FastSwapRecalculateScore(ins, t, v1, v2))
    ensures Positions(ins, FastSwapRecalculateScore(ins, t, v1, v2)) == Positions(ins, t)
  {
    var r := FastSwapRecalculateScore(ins, t, v1, v2);
    assert forall v :: 0 <= v < ins.totalNumVertices ==> PositionOf(ins, r, v) == PositionOf(ins, t, v);
  }

  /** One column of fastSwap's loop: the occupant v3 is corrected against
      v1 and then against v2, the listed pairs K and K + 1. */
  lemma ColumnStep(ins: Instance, t: Solution, v1: int, v2: int, v3: int, p: seq<int>, p2: seq<int>, L0: int,
                   Q: seq<(int, int)>, K: int, K2: int, s2: Solution)
    requires Placed(ins, t) && Positions(ins, t) == p2
    requires StepReady(ins.shortEdges, ins.layerOf, ins.numberOfLayers, ins.totalNumVertices, p, p2, L0, Q)
    requires 0 <= K && K + 1 < |Q| && Q[K] == (v1, v3) && Q[K + 1] == (v2, v3) && K2 == K + 2
    requires Progress(ins.shortEdges, ins.layerOf, ins.numberOfLayers, ins.totalNumVertices, p, p2, Q, K, t.objective, t.cuts)
    requires 0 <= v1 < ins.totalNumVertices && 0 <= v2 < ins.totalNumVertices && 0 <= v3 < ins.totalNumVertices
    requires s2 == FastSwapRecalculateScore(ins, FastSwapRecalculateScore(ins, t, v1, v3), v2, v3)
    ensures Positions(ins, s2) == p2 && s2.host == t.host
    ensures Progress(ins.shortEdges, ins.layerOf, ins.numberOfLayers, ins.totalNumVertices, p, p2, Q, K2, s2.objective, s2.cuts)
  {
    FsrStep(ins, t, p, p2, L0, Q, K);
    var s1 := FastSwapRecalculateScore(ins, t, v1, v3);
    FsrPositions(ins, t, v1, v3);
    FsrStep(ins, s1, p, p2, L0, Q, K + 1);
    FsrPositions(ins, s1, v2, v3);
  }

  /** Progress is a property of the score and matrix alone. */
  lemma ProgressSame(E: seq<Edge>, lay: seq<int>, nl: int, n: int, p: seq<int>, p2: seq<int>, Q: seq<(int, int)>,
                     K: int, objective: int, M: seq<seq<int>>, K2: int, objective2: int, M2: seq<seq<int>>)
    requires Progress(E, lay, nl, n, p, p2, Q, K, objective, M)
    requires K2 == K && objective2 == objective && M2 == M
    ensures Progress(E, lay, nl, n, p, p2, Q, K2, objective2, M2)
  {
  }

  /** One unrolling of fastSwap's loop. */
  lemma BetweenUnfold(ins: Instance, t: Solution, v1: int, v2: int, L0: int, i: int, hi: int)
    requires Placed(ins, t)
    requires 0 <= v1 < ins.totalNumVertices && 0 <= v2 < ins.totalNumVertices
    requires 0 <= L0 < ins.numberOfLayers && 0 <= i && hi <= Width(ins)
    ensures i >= hi ==> FastSwapBetween(ins, t, v1, v2, L0, i, hi) == t
    ensures i < hi ==>
              && 0 <= HostVertex(ins, L0, i) < ins.totalNumVertices
              && var v3 := InputVertexAssignedTo(ins, t, L0, i);
              && 0 <= v3 < ins.totalNumVertices
              && var s2 := FastSwapRecalculateScore(ins, FastSwapRecalculateScore(ins, t, v1, v3), v2, v3);
              && Placed(ins, s2)
              && FastSwapBetween(ins, t, v1, v2, L0, i, hi) == FastSwapBetween(ins, s2, v1, v2, L0, i + 1, hi)
  {
    if i < hi {
      SlotInRange(ins, L0, i);
      var v3 := InputVertexAssignedTo(ins, t, L0, i);
      FsrPositions(ins, t, v1, v3);
      FsrPositions(ins, FastSwapRecalculateScore(ins, t, v1, v3), v2, v3);
    }
  }

  /** fastSwap's loop from column i on, under a name of its own. */
  ghost function Run(ins: Instance, t: Solution, v1: int, v2: int, L0: int, i: int, hi: int): Solution
    requires Placed(ins, t)
    requires 0 <= v1 < ins.totalNumVertices && 0 <= v2 < ins.totalNumVertices
    requires 0 <= L0 < ins.numberOfLayers && 0 <= i && hi <= Width(ins)
  {
    FastSwapBetween(ins, t, v1, v2, L0, i, hi)
  }

  /** One unrolling of fastSwap's loop, with the occupant v3 and the
      corrected solution s2 named by the caller. */
  lemma StepEq(ins: Instance, t: Solution, v1: int, v2: int, L0: int, i: int, i1: int, hi: int, v3: int, s2: Solution)
    requires Placed(ins, t)
    requires 0 <= v1 < ins.totalNumVertices && 0 <= v2 < ins.totalNumVertices
    requires 0 <= L0 < ins.numberOfLayers && 0 <= i < hi <= Width(ins) && i1 == i + 1
    requires 0 <= HostVertex(ins, L0, i) < ins.totalNumVertices
    requires v3 == InputVertexAssignedTo(ins, t, L0, i) && 0 <= v3 < ins.totalNumVertices
    requires s2 == FastSwapRecalculateScore(ins, FastSwapRecalculateScore(ins, t, v1, v3), v2, v3)
    ensures Placed(ins, s2)
    ensures Run(ins, t, v1, v2, L0, i, hi) == Run(ins, s2, v1, v2, L0, i1, hi)
  {
    BetweenUnfold(ins, t, v1, v2, L0, i, hi);
  }

  /** The occupant of each column j strictly between lo and hi is the
      second vertex of the listed pairs 2 (j - lo) - 1 and 2 (j - lo). */
  ghost predicate ColumnsListed(ins: Instance, host: seq<int>, v1: int, v2: int, L0: int, lo: int, hi: int,
                                Q: seq<(int, int)>)
  {
    && WellFormed(ins)
    && forall j :: lo < j < hi ==>
      && 0 <= HostVertex(ins, L0, j) < |host|
      && 0 <= 2 * (j - lo) < |Q|
      && Q[2 * (j - lo) - 1] == (v1, host[HostVertex(ins, L0, j)])
      && Q[2 * (j - lo)] == (v2, host[HostVertex(ins, L0, j)])
  }

  /** ColumnsListed at one column j, with K the index of its first pair. */
  lemma ColumnAt(ins: Instance, host: seq<int>, v1: int, v2: int, L0: int, lo: int, hi: int,
                 Q: seq<(int, int)>, j: int, K: int)
    requires WellFormed(ins) && ColumnsListed(ins, host, v1, v2, L0, lo, hi, Q)
    requires lo < j < hi && K == 2 * (j - lo) - 1
    ensures 0 <= HostVertex(ins, L0, j) < |host| && 0 <= K && K + 1 < |Q|
    ensures Q[K] == (v1, host[HostVertex(ins, L0, j)]) && Q[K + 1] == (v2, host[HostVertex(ins, L0, j)])
  {
  }

  /** The loop of fastSwap over the columns strictly between the swapped
      vertices, from column i on: the occupant of column j is the second
      vertex of the listed pairs 2 (j - lo) - 1 and 2 (j - lo). */
  lemma BetweenProgress(ins: Instance, t: Solution, v1: int, v2: int, L0: int, lo: int, i: int, hi: int,
                        Q: seq<(int, int)>, p: seq<int>, p2: seq<int>, K: int, r: Solution)
    requires Progress(ins.shortEdges, ins.layerOf, ins.numberOfLayers, ins.totalNumVertices, p, p2, Q, K, t.objective, t.cuts)
    requires Placed(ins, t) && Positions(ins, t) == p2
    requires 0 <= v1 < ins.totalNumVertices && 0 <= v2 < ins.totalNumVertices
    requires 0 <= L0 < ins.numberOfLayers && 0 <= lo < i <= hi <= Width(ins) && |Q| == 2 * (hi - lo) - 1
    requires ColumnsListed(ins, t.host, v1, v2, L0, lo, hi, Q)
    requires StepReady(ins.shortEdges, ins.layerOf, ins.numberOfLayers, ins.totalNumVertices, p, p2, L0, Q)
    requires K == 2 * (i - lo) - 1
    requires r == Run(ins, t, v1, v2, L0, i, hi)
    ensures Progress(ins.shortEdges, ins.layerOf, ins.numberOfLayers, ins.totalNumVertices, p, p2, Q, |Q|, r.objective, r.cuts)
    decreases hi - i
  {
    if i < hi {
      SlotInRange(ins, L0, i);
      var v3 := InputVertexAssignedTo(ins, t, L0, i);
      ColumnAt(ins, t.host, v1, v2, L0, lo, hi, Q, i, K);
      ListedInRange(ins.shortEdges, ins.layerOf, ins.numberOfLayers, ins.totalNumVertices, p, p2, L0, Q, K);
      var s2 := FastSwapRecalculateScore(ins, FastSwapRecalculateScore(ins, t, v1, v3), v2, v3);
      var i1 := i + 1;
      var K2 := K + 2;
      StepEq(ins, t, v1, v2, L0, i, i1, hi, v3, s2);
      ColumnStep(ins, t, v1, v2, v3, p, p2, L0, Q, K, K2, s2);
      BetweenProgress(ins, s2, v1, v2, L0, lo, i1, hi, Q, p, p2, K2, r);
    } else {
      assert r == t;
      ProgressSame(ins.shortEdges, ins.layerOf, ins.numberOfLayers, ins.totalNumVertices, p, p2, Q,
                   K, t.objective, t.cuts, |Q|, r.objective, r.cuts);
    }
  }

}
