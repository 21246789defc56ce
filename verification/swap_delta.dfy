/** What changes in the crossing count and in the crossing matrix when some
    vertices of one layer L0 change their relative order.  The pairs of
    layer-L0 vertices whose order flips are listed in Q; a pair of edges
    changes its crossing status exactly when its sources or its targets form
    one of those pairs, so every change splits into per-pair contributions.
    Positions are tables indexed by vertex, as in module Crossing. */
module SwapDelta {
  import opened Sums
  import opened GraphModel
  import opened Crossing
  import opened PairSums

  /** Every vertex has a layer in [0, nl); every edge joins a vertex to one
      of the next layer. */
  ghost predicate Layered(E: seq<Edge>, lay: seq<int>, nl: int, n: int)
  {
    && |lay| == n
    && (forall v :: 0 <= v < n ==> 0 <= lay[v] < nl)
    && (forall e :: e in E ==> EdgeIn(e, n) && lay[e.target] == lay[e.source] + 1)
  }

  /** Distinct vertices of one layer have distinct positions. */
  ghost predicate LayerInjective(p: seq<int>, lay: seq<int>, n: int)
  {
    && |p| == n && |lay| == n
    && forall u, w :: 0 <= u < n && 0 <= w < n && u != w && lay[u] == lay[w] ==> p[u] != p[w]
  }

  /** u and w are in one order under p and in the other under p2. */
  predicate Flipped(p: seq<int>, p2: seq<int>, u: int, w: int)
    requires 0 <= u < |p| && 0 <= w < |p| && |p2| == |p|
  {
    (p[u] < p[w]) != (p2[u] < p2[w])
  }

  /** The k-th listed pair, smaller vertex first. */
  function QPair(Q: seq<(int, int)>, k: int): (int, int)
    requires 0 <= k < |Q|
  {
    Mm(Q[k].0, Q[k].1)
  }

  /** q is a pair of distinct layer-L0 vertices whose order flips. */
  ghost predicate QOk(lay: seq<int>, n: int, p: seq<int>, p2: seq<int>, L0: int, q: (int, int))
    requires |lay| == n && |p| == n && |p2| == n
  {
    && 0 <= q.0 < n && 0 <= q.1 < n && q.0 != q.1
    && lay[q.0] == L0 && lay[q.1] == L0
    && Flipped(p, p2, q.0, q.1)
  }

  /** The pair {u, w} is among those of Q. */
  ghost predicate Listed(Q: seq<(int, int)>, u: int, w: int)
  {
    exists k :: 0 <= k < |Q| && QPair(Q, k) == Mm(u, w)
  }

  /** p2 agrees with p off layer L0, and Q lists every flipped pair of layer
      L0 exactly once and nothing else. */
  ghost predicate FlipSetup(E: seq<Edge>, lay: seq<int>, nl: int, n: int, p: seq<int>, p2: seq<int>, L0: int, Q: seq<(int, int)>)
  {
    && Layered(E, lay, nl, n)
    && LayerInjective(p, lay, n) && LayerInjective(p2, lay, n)
    && 0 <= L0 < nl
    && (forall v :: 0 <= v < n && lay[v] != L0 ==> p2[v] == p[v])
    && (forall k :: 0 <= k < |Q| ==> QOk(lay, n, p, p2, L0, Q[k]))
    && (forall u, w :: 0 <= u < n && 0 <= w < n && u != w && lay[u] == L0 && lay[w] == L0 && Flipped(p, p2, u, w) ==>
          Listed(Q, u, w))
    && (forall k, m :: 0 <= k < m < |Q| ==> QPair(Q, k) != QPair(Q, m))
  }

  /** k => 1 when the sources or the targets of (e, f) are the k-th pair. */
  function QHitFn(Q: seq<(int, int)>, e: Edge, f: Edge): int -> int
  {
    k => if 0 <= k < |Q| then Hit(e, f, QPair(Q, k).0, QPair(Q, k).1) else 0
  }

  // ---------------------------------------------------------------------
  // The status of one pair of edges

  /** Swapping the order of the first endpoints of two edges turns a
      crossing into a non-crossing and back. */
  lemma IsCutByPosFlip(pu: int, pv: int, pw: int, pz: int, qu: int, qw: int)
    requires pu != pw && qu != qw && (pu < pw) != (qu < qw)
    ensures IsCutByPos(qu, pv, qw, pz) == (pv != pz && !IsCutByPos(pu, pv, pw, pz))
  {
  }

  /** No listed pair has a vertex off layer L0. */
  lemma OffLayerNotListed(E: seq<Edge>, lay: seq<int>, nl: int, n: int, p: seq<int>, p2: seq<int>, L0: int, Q: seq<(int, int)>, a: int, b: int)
    requires FlipSetup(E, lay, nl, n, p, p2, L0, Q)
    requires 0 <= a < n && lay[a] != L0
    ensures forall k :: 0 <= k < |Q| ==> QPair(Q, k) != Mm(a, b) && QPair(Q, k) != Mm(b, a)
  {
    forall k | 0 <= k < |Q| ensures QPair(Q, k) != Mm(a, b) && QPair(Q, k) != Mm(b, a) {
      assert QOk(lay, n, p, p2, L0, Q[k]);
    }
  }

  /** Two edges with endpoints u, w on layer L0 and a, b on another layer:
      either {u, w} is listed (once) and the crossing status of the pair
      turns over, or it is not listed and the status stays. */
  lemma SideStatus(E: seq<Edge>, lay: seq<int>, nl: int, n: int, p: seq<int>, p2: seq<int>, L0: int, Q: seq<(int, int)>,
                   u: int, w: int, a: int, b: int)
    requires FlipSetup(E, lay, nl, n, p, p2, L0, Q)
    requires 0 <= u < n && 0 <= w < n && 0 <= a < n && 0 <= b < n
    requires lay[u] == L0 && lay[w] == L0 && lay[a] == lay[b] && lay[a] != L0
    ensures u != w && Flipped(p, p2, u, w) ==>
      && (exists k0 :: 0 <= k0 < |Q| && QPair(Q, k0) == Mm(u, w))
      && IsCutByPos(p2[u], p2[a], p2[w], p2[b]) == (a != b && !IsCutByPos(p[u], p[a], p[w], p[b]))
    ensures !(u != w && Flipped(p, p2, u, w)) ==>
      && (forall k :: 0 <= k < |Q| ==> QPair(Q, k) != Mm(u, w))
      && IsCutByPos(p2[u], p2[a], p2[w], p2[b]) == IsCutByPos(p[u], p[a], p[w], p[b])
  {
    assert p2[a] == p[a] && p2[b] == p[b];
    assert a != b <==> p[a] != p[b];
    if u != w && Flipped(p, p2, u, w) {
      IsCutByPosFlip(p[u], p[a], p[w], p[b], p2[u], p2[w]);
    } else {
      forall k | 0 <= k < |Q| ensures QPair(Q, k) != Mm(u, w) {
        assert QOk(lay, n, p, p2, L0, Q[k]);
      }
      if u != w {
        IsCutByPosOrderOnly(p[u], p[a], p[w], p[b], p2[u], p2[a], p2[w], p2[b]);
      }
    }
  }

  /** The outcome for one pair of edges: either no listed pair hits it and
      its crossing status stays, or exactly one hits it (once) and the
      status turns over. */
  ghost predicate StatusOk(p: seq<int>, p2: seq<int>, Q: seq<(int, int)>, e: Edge, f: Edge)
  {
    || ((forall k :: 0 <= k < |Q| ==> QHitFn(Q, e, f)(k) == 0) && Cut(p2, e, f) == Cut(p, e, f))
    || (exists k0 :: 0 <= k0 < |Q| && QHitFn(Q, e, f)(k0) == 1
          && (forall k :: 0 <= k < |Q| && k != k0 ==> QHitFn(Q, e, f)(k) == 0)
          && Cut(p2, e, f) == NonCut(p, e, f) && NonCut(p2, e, f) == Cut(p, e, f))
  }

  /** When only the pair {u, w} can hit (e, f), StatusOk follows from the
      listed pairs being distinct. */
  lemma HitCase(p: seq<int>, p2: seq<int>, Q: seq<(int, int)>, e: Edge, f: Edge, u: int, w: int)
    requires forall k, m :: 0 <= k < m < |Q| ==> QPair(Q, k) != QPair(Q, m)
    requires forall k :: 0 <= k < |Q| ==> QHitFn(Q, e, f)(k) == Ind(QPair(Q, k) == Mm(u, w))
    requires (exists k0 :: 0 <= k0 < |Q| && QPair(Q, k0) == Mm(u, w)) ==>
      Cut(p2, e, f) == NonCut(p, e, f) && NonCut(p2, e, f) == Cut(p, e, f)
    requires (forall k :: 0 <= k < |Q| ==> QPair(Q, k) != Mm(u, w)) ==> Cut(p2, e, f) == Cut(p, e, f)
    ensures StatusOk(p, p2, Q, e, f)
  {
    if exists k0 :: 0 <= k0 < |Q| && QPair(Q, k0) == Mm(u, w) {
      var k0 :| 0 <= k0 < |Q| && QPair(Q, k0) == Mm(u, w);
      forall k | 0 <= k < |Q| && k != k0 ensures QHitFn(Q, e, f)(k) == 0 {
        if k < k0 {
          assert QPair(Q, k) != QPair(Q, k0);
        } else {
          assert QPair(Q, k0) != QPair(Q, k);
        }
      }
    }
  }

  /** Sources on layer L0. */
  lemma SourceSideStatus(E: seq<Edge>, lay: seq<int>, nl: int, n: int, p: seq<int>, p2: seq<int>, L0: int, Q: seq<(int, int)>, e: Edge, f: Edge)
    requires FlipSetup(E, lay, nl, n, p, p2, L0, Q)
    requires e in E && f in E && lay[e.source] == L0 && lay[f.source] == L0
    ensures StatusOk(p, p2, Q, e, f)
  {
    var se, te, sf, tf := e.source, e.target, f.source, f.target;
    assert Cut(p, e, f) == IsCutByPos(p[se], p[te], p[sf], p[tf]);
    assert Cut(p2, e, f) == IsCutByPos(p2[se], p2[te], p2[sf], p2[tf]);
    SideStatus(E, lay, nl, n, p, p2, L0, Q, se, sf, te, tf);
    OffLayerNotListed(E, lay, nl, n, p, p2, L0, Q, te, tf);
    forall k | 0 <= k < |Q| ensures QHitFn(Q, e, f)(k) == Ind(QPair(Q, k) == Mm(se, sf)) {
      assert HitT(e, f, QPair(Q, k).0, QPair(Q, k).1) == 0;
    }
    HitCase(p, p2, Q, e, f, se, sf);
  }

  /** Targets on layer L0. */
  lemma TargetSideStatus(E: seq<Edge>, lay: seq<int>, nl: int, n: int, p: seq<int>, p2: seq<int>, L0: int, Q: seq<(int, int)>, e: Edge, f: Edge)
    requires FlipSetup(E, lay, nl, n, p, p2, L0, Q)
    requires e in E && f in E && lay[e.target] == L0 && lay[f.target] == L0
    ensures StatusOk(p, p2, Q, e, f)
  {
    var se, te, sf, tf := e.source, e.target, f.source, f.target;
    assert Cut(p, e, f) == IsCutByPos(p[se], p[te], p[sf], p[tf]);
    assert Cut(p2, e, f) == IsCutByPos(p2[se], p2[te], p2[sf], p2[tf]);
    SideStatus(E, lay, nl, n, p, p2, L0, Q, te, tf, se, sf);
    OffLayerNotListed(E, lay, nl, n, p, p2, L0, Q, se, sf);
    IsCutByPosSymmetric(p[se], p[te], p[sf], p[tf]);
    IsCutByPosSymmetric(p2[se], p2[te], p2[sf], p2[tf]);
    forall k | 0 <= k < |Q| ensures QHitFn(Q, e, f)(k) == Ind(QPair(Q, k) == Mm(te, tf)) {
      assert HitS(e, f, QPair(Q, k).0, QPair(Q, k).1) == 0;
    }
    HitCase(p, p2, Q, e, f, te, tf);
  }

  /** A pair of edges between the same two layers is hit by at most one
      listed pair; when it is hit its crossing status turns over, otherwise
      it stays. */
  lemma PairStatus(E: seq<Edge>, lay: seq<int>, nl: int, n: int, p: seq<int>, p2: seq<int>, L0: int, Q: seq<(int, int)>, e: Edge, f: Edge)
    requires FlipSetup(E, lay, nl, n, p, p2, L0, Q)
    requires e in E && f in E && lay[e.source] == lay[f.source]
    ensures StatusOk(p, p2, Q, e, f)
  {
    var se, te, sf, tf := e.source, e.target, f.source, f.target;
    if lay[se] == L0 {
      SourceSideStatus(E, lay, nl, n, p, p2, L0, Q, e, f);
    } else if lay[te] == L0 {
      TargetSideStatus(E, lay, nl, n, p, p2, L0, Q, e, f);
    } else {
      OffLayerNotListed(E, lay, nl, n, p, p2, L0, Q, se, sf);
      OffLayerNotListed(E, lay, nl, n, p, p2, L0, Q, te, tf);
      assert forall k :: 0 <= k < |Q| ==> QHitFn(Q, e, f)(k) == 0;
      assert Cut(p2, e, f) == Cut(p, e, f);
    }
  }

  /** For one listed pair k: not hit, or hit once with the status turned over. */
  lemma HitK(p: seq<int>, p2: seq<int>, Q: seq<(int, int)>, e: Edge, f: Edge, k: int)
    requires StatusOk(p, p2, Q, e, f) && 0 <= k < |Q|
    ensures QHitFn(Q, e, f)(k) == 0
      || (QHitFn(Q, e, f)(k) == 1 && Cut(p2, e, f) == NonCut(p, e, f) && NonCut(p2, e, f) == Cut(p, e, f))
  {
  }

  // ---------------------------------------------------------------------
  // Splitting a change into per-pair contributions

  /** k, e, f => the hits of the k-th listed pair on (e, f), times g(e, f),
      on pairs between the same two layers. */
  function HitFam(Q: seq<(int, int)>, lay: seq<int>, nl: int, g: (Edge, Edge) -> int): (int, Edge, Edge) -> int
  {
    (k, e, f) => if SameLayerIn(lay, nl, e, f) then QHitFn(Q, e, f)(k) * g(e, f) else 0
  }

  /** Every pair of edges between the same two layers has StatusOk. */
  ghost predicate AllStatusOk(E: seq<Edge>, lay: seq<int>, nl: int, p: seq<int>, p2: seq<int>, Q: seq<(int, int)>)
  {
    forall i, j :: 0 <= i < |E| && 0 <= j < |E| && SameLayerIn(lay, nl, E[i], E[j]) ==> StatusOk(p, p2, Q, E[i], E[j])
  }

  /** Listed pairs are ordered, smaller vertex first, and in layer L0. */
  ghost predicate QInLayer(lay: seq<int>, L0: int, Q: seq<(int, int)>)
  {
    forall k :: 0 <= k < |Q| ==>
      && QPair(Q, k).0 < QPair(Q, k).1
      && 0 <= QPair(Q, k).0 < |lay| && 0 <= QPair(Q, k).1 < |lay|
      && lay[QPair(Q, k).0] == L0 && lay[QPair(Q, k).1] == L0
  }

  lemma AllStatus(E: seq<Edge>, lay: seq<int>, nl: int, n: int, p: seq<int>, p2: seq<int>, L0: int, Q: seq<(int, int)>)
    requires FlipSetup(E, lay, nl, n, p, p2, L0, Q)
    ensures AllStatusOk(E, lay, nl, p, p2, Q)
    ensures QInLayer(lay, L0, Q)
  {
    forall i, j | 0 <= i < |E| && 0 <= j < |E| && SameLayerIn(lay, nl, E[i], E[j])
      ensures StatusOk(p, p2, Q, E[i], E[j])
    {
      assert E[i] in E && E[j] in E;
      PairStatus(E, lay, nl, n, p, p2, L0, Q, E[i], E[j]);
    }
    forall k | 0 <= k < |Q|
      ensures QPair(Q, k).0 < QPair(Q, k).1
      ensures 0 <= QPair(Q, k).0 < |lay| && 0 <= QPair(Q, k).1 < |lay|
      ensures lay[QPair(Q, k).0] == L0 && lay[QPair(Q, k).1] == L0
    {
      assert QOk(lay, n, p, p2, L0, Q[k]);
    }
  }

  /** One pair of edges of SplitByFlips. */
  lemma SplitPoint(lay: seq<int>, nl: int, p: seq<int>, p2: seq<int>, Q: seq<(int, int)>, g: (Edge, Edge) -> int, e: Edge, f: Edge)
    requires SameLayerIn(lay, nl, e, f) ==> StatusOk(p, p2, Q, e, f)
    requires Cut(p2, e, f) == Cut(p, e, f) ==> g(e, f) == 0
    ensures Restrict(lay, nl, g)(e, f) == FamSum(HitFam(Q, lay, nl, g), |Q|)(e, f)
  {
    var G := HitFam(Q, lay, nl, g);
    if SameLayerIn(lay, nl, e, f) && g(e, f) != 0 {
      var k0 :| 0 <= k0 < |Q| && QHitFn(Q, e, f)(k0) == 1
          && (forall k :: 0 <= k < |Q| && k != k0 ==> QHitFn(Q, e, f)(k) == 0);
      SumSingle(0, |Q|, k0, FamAt(G, e, f));
    } else {
      SumZero(0, |Q|, FamAt(G, e, f));
    }
  }

  /** A pair weight that vanishes on pairs whose crossing status is the same
      under p and p2 sums to the sum of its per-listed-pair parts. */
  lemma SplitByFlips(E: seq<Edge>, lay: seq<int>, nl: int, p: seq<int>, p2: seq<int>, Q: seq<(int, int)>,
                     g: (Edge, Edge) -> int)
    requires AllStatusOk(E, lay, nl, p, p2, Q)
    requires forall i, j :: 0 <= i < j < |E| && Cut(p2, E[i], E[j]) == Cut(p, E[i], E[j]) ==> g(E[i], E[j]) == 0
    ensures Pairs(E, Restrict(lay, nl, g)) == Sum(0, |Q|, FamPairs(E, HitFam(Q, lay, nl, g)))
  {
    var G := HitFam(Q, lay, nl, g);
    forall i, j | 0 <= i < j < |E|
      ensures Restrict(lay, nl, g)(E[i], E[j]) == FamSum(G, |Q|)(E[i], E[j])
    {
      SplitPoint(lay, nl, p, p2, Q, g, E[i], E[j]);
    }
    PairsExt(E, Restrict(lay, nl, g), FamSum(G, |Q|));
    PairsFamily(E, G, |Q|);
  }

  // ---------------------------------------------------------------------
  // The score

  /** The change of one pair's crossing indicator. */
  function ScoreW(p: seq<int>, p2: seq<int>): (Edge, Edge) -> int
  {
    (e, f) => Ind(Cut(p2, e, f)) - Ind(Cut(p, e, f))
  }

  /** k => what the k-th listed pair contributes to the score: its cell below
      the diagonal (non-crossings) minus its cell above (crossings). */
  function ScoreFn(E: seq<Edge>, lay: seq<int>, nl: int, p: seq<int>, Q: seq<(int, int)>): int -> int
  {
    k => if 0 <= k < |Q| then
           CellCount(E, lay, nl, p, QPair(Q, k).1, QPair(Q, k).0) - CellCount(E, lay, nl, p, QPair(Q, k).0, QPair(Q, k).1)
         else 0
  }

  /** One pair of edges and one listed pair of ScoreDelta. */
  lemma ScorePoint(lay: seq<int>, nl: int, p: seq<int>, p2: seq<int>, Q: seq<(int, int)>, k: int, e: Edge, f: Edge)
    requires 0 <= k < |Q| && QPair(Q, k).0 < QPair(Q, k).1
    requires SameLayerIn(lay, nl, e, f) ==> StatusOk(p, p2, Q, e, f)
    ensures FamMember(HitFam(Q, lay, nl, ScoreW(p, p2)), k)(e, f)
         == Restrict(lay, nl, CellW(p, QPair(Q, k).1, QPair(Q, k).0))(e, f)
          - Restrict(lay, nl, CellW(p, QPair(Q, k).0, QPair(Q, k).1))(e, f)
  {
    if SameLayerIn(lay, nl, e, f) {
      HitK(p, p2, Q, e, f, k);
    }
  }

  /** The k-th part of the score change is the k-th pair's cell difference. */
  lemma ScoreMember(E: seq<Edge>, lay: seq<int>, nl: int, p: seq<int>, p2: seq<int>, L0: int, Q: seq<(int, int)>, k: int)
    requires AllStatusOk(E, lay, nl, p, p2, Q) && QInLayer(lay, L0, Q) && 0 <= k < |Q|
    ensures FamPairs(E, HitFam(Q, lay, nl, ScoreW(p, p2)))(k) == ScoreFn(E, lay, nl, p, Q)(k)
  {
    var G := HitFam(Q, lay, nl, ScoreW(p, p2));
    var x, y := QPair(Q, k).0, QPair(Q, k).1;
    forall i, j | 0 <= i < j < |E|
      ensures FamMember(G, k)(E[i], E[j])
           == Restrict(lay, nl, CellW(p, y, x))(E[i], E[j]) - Restrict(lay, nl, CellW(p, x, y))(E[i], E[j])
    {
      ScorePoint(lay, nl, p, p2, Q, k, E[i], E[j]);
    }
    PairsSub(E, Restrict(lay, nl, CellW(p, y, x)), Restrict(lay, nl, CellW(p, x, y)), FamMember(G, k));
  }

  /** The new crossing number is the old one plus, for every flipped pair,
      the difference of its two matrix cells under the old positions. */
  lemma ScoreDelta(E: seq<Edge>, lay: seq<int>, nl: int, p: seq<int>, p2: seq<int>, L0: int, Q: seq<(int, int)>)
    requires AllStatusOk(E, lay, nl, p, p2, Q) && QInLayer(lay, L0, Q)
    ensures Crossings(E, lay, nl, p2) == Crossings(E, lay, nl, p) + Sum(0, |Q|, ScoreFn(E, lay, nl, p, Q))
  {
    var g := ScoreW(p, p2);
    var G := HitFam(Q, lay, nl, g);
    PairsSub(E, Restrict(lay, nl, CutW(p2)), Restrict(lay, nl, CutW(p)), Restrict(lay, nl, g));
    SplitByFlips(E, lay, nl, p, p2, Q, g);
    forall k | 0 <= k < |Q| ensures FamPairs(E, G)(k) == ScoreFn(E, lay, nl, p, Q)(k) {
      ScoreMember(E, lay, nl, p, p2, L0, Q, k);
    }
    SumExt(0, |Q|, FamPairs(E, G), ScoreFn(E, lay, nl, p, Q));
  }

  // ---------------------------------------------------------------------
  // The matrix cells

  /** How often (e, f) is the pair (x, y) in this order: sources x and y,
      or targets x and y. */
  function OrdInd(e: Edge, f: Edge, x: int, y: int): int
  {
    Ind(e.source == x && f.source == y) + Ind(e.target == x && f.target == y)
  }

  /** (i, j) => G(E[i], E[j]) over the ordered pairs of edges that meet
      (x, y) in this order, over the whole square of indices. */
  function OrdW(E: seq<Edge>, x: int, y: int, G: (Edge, Edge) -> int): (int, int) -> int
  {
    (i, j) => if 0 <= i < |E| && 0 <= j < |E| then OrdInd(E[i], E[j], x, y) * G(E[i], E[j]) else 0
  }

  function Upper(h: (int, int) -> int): (int, int) -> int
  {
    (i, j) => if i < j then h(i, j) else 0
  }

  function Lower(h: (int, int) -> int): (int, int) -> int
  {
    (i, j) => if j < i then h(i, j) else 0
  }

  /** A symmetric pair weight that lives on the pairs meeting {x, y} once
      sums over the index-ordered pairs to its sum over the (x, y)-ordered
      pairs. */
  lemma TriToSquare(E: seq<Edge>, x: int, y: int, G: (Edge, Edge) -> int)
    requires x < y
    requires forall i, j :: 0 <= i < |E| && 0 <= j < |E| ==> G(E[i], E[j]) == G(E[j], E[i])
    requires forall i, j :: 0 <= i < |E| && 0 <= j < |E| && G(E[i], E[j]) != 0 ==> Hit(E[i], E[j], x, y) == 1
    ensures Pairs(E, G) == Square(|E|, OrdW(E, x, y, G))
  {
    var m := |E|;
    var O := OrdW(E, x, y, G);
    RowsAdd(m, Upper(O), Lower(O), O);
    SquareTranspose(m, Lower(O));
    PairWSplits(E, x, y, G, O);
    RowsAdd(m, Upper(O), Transpose(Lower(O)), PairW(E, G));
  }

  /** Pointwise, the index-ordered pair weight is the (x, y)-ordered weight
      above the diagonal plus the transposed one below it. */
  lemma PairWSplits(E: seq<Edge>, x: int, y: int, G: (Edge, Edge) -> int, O: (int, int) -> int)
    requires x < y && O == OrdW(E, x, y, G)
    requires forall i, j :: 0 <= i < |E| && 0 <= j < |E| ==> G(E[i], E[j]) == G(E[j], E[i])
    requires forall i, j :: 0 <= i < |E| && 0 <= j < |E| && G(E[i], E[j]) != 0 ==> Hit(E[i], E[j], x, y) == 1
    ensures forall i, j :: 0 <= i < |E| && 0 <= j < |E| ==> PairW(E, G)(i, j) == Upper(O)(i, j) + Transpose(Lower(O))(i, j)
  {
    forall i, j | 0 <= i < |E| && 0 <= j < |E|
      ensures PairW(E, G)(i, j) == Upper(O)(i, j) + Transpose(Lower(O))(i, j)
    {
      if i < j {
        assert Hit(E[i], E[j], x, y) == OrdInd(E[i], E[j], x, y) + OrdInd(E[j], E[i], x, y);
      }
    }
  }

  /** A pair's contribution to a cell does not depend on the order of the
      two edges. */
  lemma ContribSym(p: seq<int>, e: Edge, f: Edge, c: int, d: int)
    ensures Contrib(p, e, f, c, d) == Contrib(p, f, e, c, d)
  {
    IsCutByPosSymmetric(Pos(p, e.source), Pos(p, e.target), Pos(p, f.source), Pos(p, f.target));
  }

  /** The change of one pair's contribution to cell (c, d). */
  function DeltaW(p: seq<int>, p2: seq<int>, c: int, d: int): (Edge, Edge) -> int
  {
    (e, f) => Contrib(p2, e, f, c, d) - Contrib(p, e, f, c, d)
  }

  /** k => the change of cell (c, d) due to the k-th listed pair, summed over
      the ordered pairs of edges that meet that pair. */
  function CellFn(E: seq<Edge>, p: seq<int>, p2: seq<int>, Q: seq<(int, int)>, c: int, d: int): int -> int
  {
    k => if 0 <= k < |Q| then Square(|E|, OrdW(E, QPair(Q, k).0, QPair(Q, k).1, DeltaW(p, p2, c, d))) else 0
  }

  /** One ordered pair of edges of CellMember: where (e, f) meets (x, y) in
      this order, the k-th member of the family is the full change. */
  lemma CellOrdPoint(E: seq<Edge>, lay: seq<int>, nl: int, n: int, L0: int, Q: seq<(int, int)>,
                     k: int, D: (Edge, Edge) -> int, e: Edge, f: Edge)
    requires Layered(E, lay, nl, n) && QInLayer(lay, L0, Q) && 0 <= k < |Q| && e in E && f in E
    ensures OrdInd(e, f, QPair(Q, k).0, QPair(Q, k).1) * FamMember(HitFam(Q, lay, nl, D), k)(e, f)
         == OrdInd(e, f, QPair(Q, k).0, QPair(Q, k).1) * D(e, f)
  {
    var x, y := QPair(Q, k).0, QPair(Q, k).1;
    assert lay[e.target] == lay[e.source] + 1 && lay[f.target] == lay[f.source] + 1;
    assert 0 <= lay[e.source] < nl;
    if e.source == x && f.source == y {
      assert SameLayerIn(lay, nl, e, f);
      assert HitT(e, f, x, y) == 0;
      assert x < y && Mm(e.source, f.source) == (x, y);
      assert QHitFn(Q, e, f)(k) == Hit(e, f, x, y) == 1;
      assert FamMember(HitFam(Q, lay, nl, D), k)(e, f) == D(e, f);
    } else if e.target == x && f.target == y {
      assert SameLayerIn(lay, nl, e, f);
      assert HitS(e, f, x, y) == 0;
      assert x < y && Mm(e.target, f.target) == (x, y);
      assert QHitFn(Q, e, f)(k) == Hit(e, f, x, y) == 1;
      assert FamMember(HitFam(Q, lay, nl, D), k)(e, f) == D(e, f);
    }
  }

  /** The k-th member of the change of cell (c, d) is symmetric and lives on
      pairs that meet the k-th pair once. */
  lemma CellMemberShape(E: seq<Edge>, lay: seq<int>, nl: int, p: seq<int>, p2: seq<int>, Q: seq<(int, int)>,
                        k: int, c: int, d: int)
    requires AllStatusOk(E, lay, nl, p, p2, Q) && 0 <= k < |Q|
    ensures forall i, j :: 0 <= i < |E| && 0 <= j < |E| ==>
      FamMember(HitFam(Q, lay, nl, DeltaW(p, p2, c, d)), k)(E[i], E[j])
        == FamMember(HitFam(Q, lay, nl, DeltaW(p, p2, c, d)), k)(E[j], E[i])
    ensures forall i, j :: 0 <= i < |E| && 0 <= j < |E| && FamMember(HitFam(Q, lay, nl, DeltaW(p, p2, c, d)), k)(E[i], E[j]) != 0 ==>
      Hit(E[i], E[j], QPair(Q, k).0, QPair(Q, k).1) == 1
  {
    var G := FamMember(HitFam(Q, lay, nl, DeltaW(p, p2, c, d)), k);
    forall i, j | 0 <= i < |E| && 0 <= j < |E| ensures G(E[i], E[j]) == G(E[j], E[i]) {
      ContribSym(p, E[i], E[j], c, d);
      ContribSym(p2, E[i], E[j], c, d);
    }
    forall i, j | 0 <= i < |E| && 0 <= j < |E| && G(E[i], E[j]) != 0
      ensures Hit(E[i], E[j], QPair(Q, k).0, QPair(Q, k).1) == 1
    {
      HitK(p, p2, Q, E[i], E[j], k);
    }
  }

  /** The k-th part of a cell's change, as an ordered-pair sum. */
  lemma CellMember(E: seq<Edge>, lay: seq<int>, nl: int, n: int, p: seq<int>, p2: seq<int>, L0: int, Q: seq<(int, int)>,
                   k: int, c: int, d: int)
    requires Layered(E, lay, nl, n) && AllStatusOk(E, lay, nl, p, p2, Q) && QInLayer(lay, L0, Q) && 0 <= k < |Q|
    ensures FamPairs(E, HitFam(Q, lay, nl, DeltaW(p, p2, c, d)))(k) == CellFn(E, p, p2, Q, c, d)(k)
  {
    var D := DeltaW(p, p2, c, d);
    var G := FamMember(HitFam(Q, lay, nl, D), k);
    var x, y := QPair(Q, k).0, QPair(Q, k).1;
    CellMemberShape(E, lay, nl, p, p2, Q, k, c, d);
    TriToSquare(E, x, y, G);
    forall i, j | 0 <= i < |E| && 0 <= j < |E| ensures OrdW(E, x, y, G)(i, j) == OrdW(E, x, y, D)(i, j) {
      CellOrdPoint(E, lay, nl, n, L0, Q, k, D, E[i], E[j]);
    }
    RowsExt(0, |E|, 0, |E|, OrdW(E, x, y, G), OrdW(E, x, y, D));
  }

  lemma DeltaPoint(lay: seq<int>, nl: int, p: seq<int>, p2: seq<int>, c: int, d: int, e: Edge, f: Edge)
    ensures Restrict(lay, nl, DeltaW(p, p2, c, d))(e, f)
         == Restrict(lay, nl, CellW(p2, c, d))(e, f) - Restrict(lay, nl, CellW(p, c, d))(e, f)
    ensures Cut(p2, e, f) == Cut(p, e, f) ==> DeltaW(p, p2, c, d)(e, f) == 0
  {
  }

  /** The change of a cell, as a sum over pairs that vanishes where the
      crossing status stays. */
  lemma DeltaPairs(E: seq<Edge>, lay: seq<int>, nl: int, p: seq<int>, p2: seq<int>, c: int, d: int)
    ensures Pairs(E, Restrict(lay, nl, DeltaW(p, p2, c, d)))
         == CellCount(E, lay, nl, p2, c, d) - CellCount(E, lay, nl, p, c, d)
    ensures forall i, j :: 0 <= i < j < |E| && Cut(p2, E[i], E[j]) == Cut(p, E[i], E[j]) ==> DeltaW(p, p2, c, d)(E[i], E[j]) == 0
  {
    var D := DeltaW(p, p2, c, d);
    forall i, j | 0 <= i < j < |E|
      ensures Restrict(lay, nl, D)(E[i], E[j])
           == Restrict(lay, nl, CellW(p2, c, d))(E[i], E[j]) - Restrict(lay, nl, CellW(p, c, d))(E[i], E[j])
      ensures Cut(p2, E[i], E[j]) == Cut(p, E[i], E[j]) ==> D(E[i], E[j]) == 0
    {
      DeltaPoint(lay, nl, p, p2, c, d, E[i], E[j]);
    }
    PairsSub(E, Restrict(lay, nl, CellW(p2, c, d)), Restrict(lay, nl, CellW(p, c, d)), Restrict(lay, nl, D));
  }

  /** Every cell of the new matrix is the old cell plus, for every flipped
      pair, the change carried by the edge pairs that meet it. */
  lemma CellDelta(E: seq<Edge>, lay: seq<int>, nl: int, n: int, p: seq<int>, p2: seq<int>, L0: int, Q: seq<(int, int)>,
                  c: int, d: int)
    requires Layered(E, lay, nl, n) && AllStatusOk(E, lay, nl, p, p2, Q) && QInLayer(lay, L0, Q)
    ensures CellCount(E, lay, nl, p2, c, d) == CellCount(E, lay, nl, p, c, d) + Sum(0, |Q|, CellFn(E, p, p2, Q, c, d))
  {
    var D := DeltaW(p, p2, c, d);
    var G := HitFam(Q, lay, nl, D);
    DeltaPairs(E, lay, nl, p, p2, c, d);
    SplitByFlips(E, lay, nl, p, p2, Q, D);
    forall k | 0 <= k < |Q| ensures FamPairs(E, G)(k) == CellFn(E, p, p2, Q, c, d)(k) {
      CellMember(E, lay, nl, n, p, p2, L0, Q, k, c, d);
    }
    SumExt(0, |Q|, FamPairs(E, G), CellFn(E, p, p2, Q, c, d));
  }

  /** The pair q is in one order under p and in the other under p2. */
  ghost predicate PairFlips(p: seq<int>, p2: seq<int>, q: (int, int))
  {
    && 0 <= q.0 < |p| && 0 <= q.1 < |p| && |p2| == |p|
    && p[q.0] != p[q.1] && p2[q.0] != p2[q.1]
    && Flipped(p, p2, q.0, q.1)
  }

  /** The facts about the listed pairs the corrections rely on: the flip
      analysis above, p2 agreeing with p off layer L0, every listed
      pair flipping, and no pair listed twice. */
  ghost predicate StepReady(E: seq<Edge>, lay: seq<int>, nl: int, n: int, p: seq<int>, p2: seq<int>, L0: int, Q: seq<(int, int)>)
  {
    && Layered(E, lay, nl, n) && |p| == n && |p2| == n
    && AllStatusOk(E, lay, nl, p, p2, Q) && QInLayer(lay, L0, Q)
    && (forall v :: 0 <= v < n && lay[v] != L0 ==> p2[v] == p[v])
    && (forall k :: 0 <= k < |Q| ==> PairFlips(p, p2, QPair(Q, k)))
    && (forall k, m :: 0 <= k < m < |Q| ==> QPair(Q, k) != QPair(Q, m))
  }

  /** Score and matrix once the first K listed pairs have been corrected:
      the old count plus the first K terms of ScoreDelta and CellDelta. */
  ghost predicate Progress(E: seq<Edge>, lay: seq<int>, nl: int, n: int, p: seq<int>, p2: seq<int>, Q: seq<(int, int)>,
                           K: int, objective: int, M: seq<seq<int>>)
  {
    && IsMatrix(M, n)
    && objective == Crossings(E, lay, nl, p) + Sum(0, K, ScoreFn(E, lay, nl, p, Q))
    && forall c, d {:trigger M[c][d]} :: 0 <= c < n && 0 <= d < n ==>
         M[c][d] == CellCount(E, lay, nl, p, c, d) + Sum(0, K, CellFn(E, p, p2, Q, c, d))
  }
}
