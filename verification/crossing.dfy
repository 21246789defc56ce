/** Crossings of short edges under an assignment of positions to vertices,
    and the pairwise bookkeeping cell ("matrixCuts") GDSolution keeps for
    every pair of vertices. Positions are a sequence indexed by vertex. */
module Crossing {
  import opened Sums
  import opened GraphModel

  /** isCutByPos: edges (u, v) and (w, z) between the same two layers cross
      when their endpoints are in opposite order on the two layers; edges
      sharing an endpoint position never cross. */
  function IsCutByPos(pu: int, pv: int, pw: int, pz: int): (r: bool)
    ensures r <==> (pu - pw) * (pv - pz) < 0
  {
    if pu == pw then false
    else if pv == pz then false
    else if pu < pw && pv < pz then false
    else pu <= pw || pv <= pz
  }

  /** Crossing is symmetric in the two edges and unchanged when both edges
      are read backwards. */
  lemma IsCutByPosSymmetric(pu: int, pv: int, pw: int, pz: int)
    ensures IsCutByPos(pu, pv, pw, pz) == IsCutByPos(pw, pz, pu, pv)
    ensures IsCutByPos(pu, pv, pw, pz) == IsCutByPos(pv, pu, pz, pw)
  {
    assert (pu - pw) * (pv - pz) == (pw - pu) * (pz - pv);
    assert (pu - pw) * (pv - pz) == (pv - pz) * (pu - pw);
  }

  /** Only the relative order of the endpoints on each layer matters. */
  lemma IsCutByPosOrderOnly(pu: int, pv: int, pw: int, pz: int, qu: int, qv: int, qw: int, qz: int)
    requires (pu < pw <==> qu < qw) && (pw < pu <==> qw < qu)
    requires (pv < pz <==> qv < qz) && (pz < pv <==> qz < qv)
    ensures IsCutByPos(pu, pv, pw, pz) == IsCutByPos(qu, qv, qw, qz)
  {
  }

  /** The position of v, 0 outside the table. */
  function Pos(p: seq<int>, v: int): int
  {
    if 0 <= v < |p| then p[v] else 0
  }

  /** isCut on two edges. */
  function Cut(p: seq<int>, e: Edge, f: Edge): bool
  {
    IsCutByPos(Pos(p, e.source), Pos(p, e.target), Pos(p, f.source), Pos(p, f.target))
  }

  /** A pair that is counted as "not crossing" in the matrix: the edges do
      not cross and share neither endpoint. */
  predicate NonCut(p: seq<int>, e: Edge, f: Edge)
  {
    !Cut(p, e, f) && e.source != f.source && e.target != f.target
  }

  /** The ordered pair (min, max). */
  function Mm(a: int, b: int): (int, int)
  {
    if a < b then (a, b) else (b, a)
  }

  /** 1 when the sources of e and f are {lo, hi}. */
  function HitS(e: Edge, f: Edge, lo: int, hi: int): int
  {
    Ind(Mm(e.source, f.source) == (lo, hi))
  }

  /** 1 when the targets of e and f are {lo, hi}. */
  function HitT(e: Edge, f: Edge, lo: int, hi: int): int
  {
    Ind(Mm(e.target, f.target) == (lo, hi))
  }

  function Hit(e: Edge, f: Edge, lo: int, hi: int): int
  {
    HitS(e, f, lo, hi) + HitT(e, f, lo, hi)
  }

  /** What one pair of edges adds to cell (c, d) of the matrix when its
      crossing status is `cut`: above the diagonal a crossing pair counts
      for both its source pair and its target pair; below the diagonal a
      non-crossing pair with distinct endpoints does. */
  function ContribB(cut: bool, e: Edge, f: Edge, c: int, d: int): int
  {
    if c < d then (if cut then Hit(e, f, c, d) else 0)
    else if d < c then (if !cut && e.source != f.source && e.target != f.target then Hit(e, f, d, c) else 0)
    else 0
  }

  /** The target-pair part of ContribB alone. */
  function ContribTB(cut: bool, e: Edge, f: Edge, c: int, d: int): int
  {
    if c < d then (if cut then HitT(e, f, c, d) else 0)
    else if d < c then (if !cut && e.source != f.source && e.target != f.target then HitT(e, f, d, c) else 0)
    else 0
  }

  function Contrib(p: seq<int>, e: Edge, f: Edge, c: int, d: int): int
  {
    ContribB(Cut(p, e, f), e, f, c, d)
  }

  // ---------------------------------------------------------------------
  // Sums over pairs of edges

  /** (i, j) => g(E[i], E[j]) for i < j, 0 elsewhere. */
  function PairW(E: seq<Edge>, g: (Edge, Edge) -> int): (int, int) -> int
  {
    (i, j) => if 0 <= i < j < |E| then g(E[i], E[j]) else 0
  }

  /** Sum of g over the pairs of E taken in index order. */
  function Pairs(E: seq<Edge>, g: (Edge, Edge) -> int): int
  {
    Square(|E|, PairW(E, g))
  }

  /** Both sources known and in the same layer, that layer in [0, nl). */
  predicate SameLayerIn(layerOf: seq<int>, nl: int, e: Edge, f: Edge)
  {
    && 0 <= e.source < |layerOf| && 0 <= f.source < |layerOf|
    && layerOf[e.source] == layerOf[f.source]
    && 0 <= layerOf[e.source] < nl
  }

  /** g on pairs between the same two layers, 0 on the others. */
  function Restrict(layerOf: seq<int>, nl: int, g: (Edge, Edge) -> int): (Edge, Edge) -> int
  {
    (e, f) => if SameLayerIn(layerOf, nl, e, f) then g(e, f) else 0
  }

  function CutW(p: seq<int>): (Edge, Edge) -> int
  {
    (e, f) => Ind(Cut(p, e, f))
  }

  function CellW(p: seq<int>, c: int, d: int): (Edge, Edge) -> int
  {
    (e, f) => Contrib(p, e, f, c, d)
  }

  /** The number of crossings of a drawing: pairs of short edges between the
      same two layers that cross. */
  function Crossings(E: seq<Edge>, layerOf: seq<int>, nl: int, p: seq<int>): int
  {
    Pairs(E, Restrict(layerOf, nl, CutW(p)))
  }

  /** The value a from-scratch count leaves in cell (c, d). */
  function CellCount(E: seq<Edge>, layerOf: seq<int>, nl: int, p: seq<int>, c: int, d: int): int
  {
    Pairs(E, Restrict(layerOf, nl, CellW(p, c, d)))
  }

  /** The whole n x n matrix of cell counts. */
  function CountMatrix(E: seq<Edge>, layerOf: seq<int>, nl: int, p: seq<int>, n: nat): (r: seq<seq<int>>)
    ensures |r| == n && forall c :: 0 <= c < n ==> |r[c]| == n
  {
    seq(n, c => seq(n, d => CellCount(E, layerOf, nl, p, c, d)))
  }

  /** A square n x n integer matrix. */
  predicate IsMatrix(M: seq<seq<int>>, n: int)
  {
    |M| == n && forall c :: 0 <= c < |M| ==> |M[c]| == n
  }
}
