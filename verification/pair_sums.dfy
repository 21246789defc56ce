/** Sums over the pairs of a list of edges: linearity, extension by one
    edge, the per-layer decomposition the counting loop follows, and the
    row-by-row order in which the loop visits the pairs. */
module PairSums {
  import opened Sums
  import opened GraphModel
  import opened Crossing

  lemma PairsExt(E: seq<Edge>, g: (Edge, Edge) -> int, h: (Edge, Edge) -> int)
    requires forall i, j :: 0 <= i < j < |E| ==> g(E[i], E[j]) == h(E[i], E[j])
    ensures Pairs(E, g) == Pairs(E, h)
  {
    RowsExt(0, |E|, 0, |E|, PairW(E, g), PairW(E, h));
  }

  lemma PairsZero(E: seq<Edge>, g: (Edge, Edge) -> int)
    requires forall i, j :: 0 <= i < j < |E| ==> g(E[i], E[j]) == 0
    ensures Pairs(E, g) == 0
  {
    SquareZero(|E|, PairW(E, g));
  }

  lemma PairsAdd(E: seq<Edge>, g1: (Edge, Edge) -> int, g2: (Edge, Edge) -> int, g: (Edge, Edge) -> int)
    requires forall i, j :: 0 <= i < j < |E| ==> g(E[i], E[j]) == g1(E[i], E[j]) + g2(E[i], E[j])
    ensures Pairs(E, g) == Pairs(E, g1) + Pairs(E, g2)
  {
    RowsAdd(|E|, PairW(E, g1), PairW(E, g2), PairW(E, g));
  }

  lemma PairsSub(E: seq<Edge>, g1: (Edge, Edge) -> int, g2: (Edge, Edge) -> int, g: (Edge, Edge) -> int)
    requires forall i, j :: 0 <= i < j < |E| ==> g(E[i], E[j]) == g1(E[i], E[j]) - g2(E[i], E[j])
    ensures Pairs(E, g) == Pairs(E, g1) - Pairs(E, g2)
  {
    RowsSub(|E|, PairW(E, g1), PairW(E, g2), PairW(E, g));
  }

  // ---------------------------------------------------------------------
  // A family of pair weights indexed by k

  function FamAt(G: (int, Edge, Edge) -> int, e: Edge, f: Edge): int -> int
  {
    k => G(k, e, f)
  }

  /** (e, f) => sum of G(k, e, f) over 0 <= k < K. */
  function FamSum(G: (int, Edge, Edge) -> int, K: int): (Edge, Edge) -> int
  {
    (e, f) => Sum(0, K, FamAt(G, e, f))
  }

  function FamMember(G: (int, Edge, Edge) -> int, k: int): (Edge, Edge) -> int
  {
    (e, f) => G(k, e, f)
  }

  function FamPairs(E: seq<Edge>, G: (int, Edge, Edge) -> int): int -> int
  {
    k => Pairs(E, FamMember(G, k))
  }

  /** Summing over the family and over the pairs commute. */
  lemma {:induction false} PairsFamily(E: seq<Edge>, G: (int, Edge, Edge) -> int, K: nat)
    ensures Pairs(E, FamSum(G, K)) == Sum(0, K, FamPairs(E, G))
  {
    if K == 0 {
      PairsZero(E, FamSum(G, 0));
    } else {
      PairsFamily(E, G, K - 1);
      PairsAdd(E, FamSum(G, K - 1), FamMember(G, K - 1), FamSum(G, K));
    }
  }

  // ---------------------------------------------------------------------
  // One more edge

  /** i => g(E[i], e). */
  function ColFn(E: seq<Edge>, g: (Edge, Edge) -> int, e: Edge): int -> int
  {
    i => if 0 <= i < |E| then g(E[i], e) else 0
  }

  /** Appending e adds the pairs (E[i], e). */
  lemma PairsSnoc(E: seq<Edge>, e: Edge, g: (Edge, Edge) -> int)
    ensures Pairs(E + [e], g) == Pairs(E, g) + Sum(0, |E|, ColFn(E, g, e))
  {
    var m := |E|;
    var E1 := E + [e];
    var P1 := PairW(E1, g);
    var P := PairW(E, g);
    SumZero(0, m + 1, Entry(P1, m));
    forall i | 0 <= i < m
      ensures Row(0, m + 1, P1)(i) == Row(0, m, P)(i) + ColFn(E, g, e)(i)
    {
      assert Row(0, m + 1, P1)(i) == Sum(0, m, Entry(P1, i)) + P1(i, m);
      SumExt(0, m, Entry(P1, i), Entry(P, i));
    }
    SumAdd(0, m, Row(0, m, P), ColFn(E, g, e), Row(0, m + 1, P1));
  }

  // ---------------------------------------------------------------------
  // Per-layer decomposition

  /** i => g(E[i], e) for the E[i] with source in layer h. */
  function ColIfFn(E: seq<Edge>, layerOf: seq<int>, h: int, g: (Edge, Edge) -> int, e: Edge): int -> int
  {
    i => if 0 <= i < |E| && InLayer(layerOf, E[i], h) then g(E[i], e) else 0
  }

  /** Summing over a layer's sub-list is summing over the whole list with
      the other layers masked out. */
  lemma {:induction false} FilterColumn(E: seq<Edge>, layerOf: seq<int>, h: int, g: (Edge, Edge) -> int, e: Edge)
    ensures Sum(0, |EdgesFromLayer(E, layerOf, h)|, ColFn(EdgesFromLayer(E, layerOf, h), g, e))
         == Sum(0, |E|, ColIfFn(E, layerOf, h, g, e))
  {
    if |E| > 0 {
      var E1 := E[..|E| - 1];
      var x := E[|E| - 1];
      assert E == E1 + [x];
      FilterColumn(E1, layerOf, h, g, e);
      var F1 := EdgesFromLayer(E1, layerOf, h);
      var F := EdgesFromLayer(E, layerOf, h);
      SumExt(0, |E1|, ColIfFn(E1, layerOf, h, g, e), ColIfFn(E, layerOf, h, g, e));
      if InLayer(layerOf, x, h) {
        assert F == F1 + [x];
        SumExt(0, |F1|, ColFn(F1, g, e), ColFn(F, g, e));
      } else {
        assert F == F1;
      }
    }
  }

  /** h => the pairs of layer h's edges. */
  function LayerFn(E: seq<Edge>, layerOf: seq<int>, g: (Edge, Edge) -> int): int -> int
  {
    h => Pairs(EdgesFromLayer(E, layerOf, h), g)
  }

  function ExtraFn(E: seq<Edge>, layerOf: seq<int>, g: (Edge, Edge) -> int, e: Edge): int -> int
  {
    h => if InLayer(layerOf, e, h) then Sum(0, |E|, ColIfFn(E, layerOf, h, g, e)) else 0
  }

  /** One more edge adds to its own layer only. */
  lemma LayerFnSnoc(E0: seq<Edge>, e: Edge, layerOf: seq<int>, g: (Edge, Edge) -> int, h: int)
    ensures LayerFn(E0 + [e], layerOf, g)(h) == LayerFn(E0, layerOf, g)(h) + ExtraFn(E0, layerOf, g, e)(h)
  {
    EdgesFromLayerSnoc(E0, e, layerOf, h);
    var F0 := EdgesFromLayer(E0, layerOf, h);
    var F := EdgesFromLayer(E0 + [e], layerOf, h);
    assert LayerFn(E0 + [e], layerOf, g)(h) == Pairs(F, g);
    assert LayerFn(E0, layerOf, g)(h) == Pairs(F0, g);
    if InLayer(layerOf, e, h) {
      assert F == F0 + [e];
      PairsSnoc(F0, e, g);
      FilterColumn(E0, layerOf, h, g, e);
      assert ExtraFn(E0, layerOf, g, e)(h) == Sum(0, |E0|, ColIfFn(E0, layerOf, h, g, e));
    } else {
      assert F == F0;
      assert ExtraFn(E0, layerOf, g, e)(h) == 0;
    }
  }

  /** The pairs e forms, counted layer by layer, are its same-layer pairs. */
  lemma ExtraSum(E0: seq<Edge>, e: Edge, layerOf: seq<int>, nl: int, g: (Edge, Edge) -> int)
    requires 0 <= nl
    ensures Sum(0, nl, ExtraFn(E0, layerOf, g, e)) == Sum(0, |E0|, ColFn(E0, Restrict(layerOf, nl, g), e))
  {
    var R := Restrict(layerOf, nl, g);
    if 0 <= e.source < |layerOf| && 0 <= layerOf[e.source] < nl {
      var h0 := layerOf[e.source];
      SumSingle(0, nl, h0, ExtraFn(E0, layerOf, g, e));
      forall i | 0 <= i < |E0| ensures ColFn(E0, R, e)(i) == ColIfFn(E0, layerOf, h0, g, e)(i) {
        assert SameLayerIn(layerOf, nl, E0[i], e) <==> InLayer(layerOf, E0[i], h0);
      }
      SumExt(0, |E0|, ColFn(E0, R, e), ColIfFn(E0, layerOf, h0, g, e));
    } else {
      SumZero(0, nl, ExtraFn(E0, layerOf, g, e));
      forall i | 0 <= i < |E0| ensures ColFn(E0, R, e)(i) == 0 {
        assert !SameLayerIn(layerOf, nl, E0[i], e);
      }
      SumZero(0, |E0|, ColFn(E0, R, e));
    }
  }

  /** Summing the pairs layer by layer, as __recalculateScore does, is
      summing over all pairs of edges between the same two layers. */
  lemma {:induction false} LayerSplit(E: seq<Edge>, layerOf: seq<int>, nl: int, g: (Edge, Edge) -> int)
    requires 0 <= nl
    ensures Sum(0, nl, LayerFn(E, layerOf, g)) == Pairs(E, Restrict(layerOf, nl, g))
  {
    if |E| == 0 {
      SumZero(0, nl, LayerFn(E, layerOf, g));
    } else {
      var E0 := E[..|E| - 1];
      var e := E[|E| - 1];
      assert E == E0 + [e];
      LayerSplit(E0, layerOf, nl, g);
      forall h | 0 <= h < nl
        ensures LayerFn(E, layerOf, g)(h) == LayerFn(E0, layerOf, g)(h) + ExtraFn(E0, layerOf, g, e)(h)
      {
        LayerFnSnoc(E0, e, layerOf, g, h);
      }
      SumAdd(0, nl, LayerFn(E0, layerOf, g), ExtraFn(E0, layerOf, g, e), LayerFn(E, layerOf, g));
      PairsSnoc(E0, e, Restrict(layerOf, nl, g));
      ExtraSum(E0, e, layerOf, nl, g);
    }
  }

  // ---------------------------------------------------------------------
  // Row-by-row order of the counting loop

  /** k => g(L[i], L[k]). */
  function RowFn(L: seq<Edge>, g: (Edge, Edge) -> int, i: int): int -> int
  {
    k => if 0 <= i < |L| && 0 <= k < |L| then g(L[i], L[k]) else 0
  }

  /** The pairs (i, k) for j <= k < |L|. */
  function RowTail(L: seq<Edge>, g: (Edge, Edge) -> int, i: int, j: int): int
  {
    Sum(j, |L|, RowFn(L, g, i))
  }

  function TriRowFn(L: seq<Edge>, g: (Edge, Edge) -> int): int -> int
  {
    i => RowTail(L, g, i, i + 1)
  }

  /** The pairs whose first index is at least i. */
  function TriFrom(L: seq<Edge>, g: (Edge, Edge) -> int, i: int): int
  {
    Sum(i, |L|, TriRowFn(L, g))
  }

  /** Visiting the rows in order covers every pair once. */
  lemma TriFromPairs(L: seq<Edge>, g: (Edge, Edge) -> int)
    ensures TriFrom(L, g, 0) == Pairs(L, g)
  {
    var m := |L|;
    var P := PairW(L, g);
    forall i | 0 <= i < m
      ensures Row(0, m, P)(i) == TriRowFn(L, g)(i)
    {
      SumSplit(0, i + 1, m, Entry(P, i));
      SumZero(0, i + 1, Entry(P, i));
      SumExt(i + 1, m, Entry(P, i), RowFn(L, g, i));
    }
    SumExt(0, m, Row(0, m, P), TriRowFn(L, g));
  }

  /** The first row of the remaining ones. */
  lemma TriFromStep(L: seq<Edge>, g: (Edge, Edge) -> int, i: int)
    requires 0 <= i < |L|
    ensures TriFrom(L, g, i) == RowTail(L, g, i, i + 1) + TriFrom(L, g, i + 1)
  {
    SumFront(i, |L|, TriRowFn(L, g));
  }

  /** The first pair of the remaining ones in a row. */
  lemma RowTailStep(L: seq<Edge>, g: (Edge, Edge) -> int, i: int, j: int)
    requires 0 <= i < |L| && 0 <= j < |L|
    ensures RowTail(L, g, i, j) == g(L[i], L[j]) + RowTail(L, g, i, j + 1)
  {
    SumFront(j, |L|, RowFn(L, g, i));
  }

  lemma RowTailEmpty(L: seq<Edge>, g: (Edge, Edge) -> int, i: int, j: int)
    requires j >= |L| || i >= |L|
    ensures RowTail(L, g, i, j) == 0
  {
    SumZero(j, |L|, RowFn(L, g, i));
  }

  lemma TriFromEmpty(L: seq<Edge>, g: (Edge, Edge) -> int, i: int)
    requires i >= |L|
    ensures TriFrom(L, g, i) == 0
  {
  }
}
