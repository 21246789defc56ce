/** GDSolution: an embedding of the layered graph into a grid of
    numberOfLayers rows and NumVerticesInLayer columns, the cached number of
    crossings, and the pairwise crossing matrix that makes swaps cheap to
    evaluate. Slot layer * W + column of the grid is a "host vertex".

    Every operation is a pure function from the old solution to the new one;
    the source mutates in place, and a clone is simply the same value. */
module Solutions {
  import opened Sums
  import opened GraphModel
  import opened Crossing

  /** Integer.MAX_VALUE, the "score not computed yet" marker. */
  const IntMax: int := 0x7fff_ffff

  datatype Solution = Solution(host: seq<int>, input: seq<int>, objective: int, cuts: seq<seq<int>>)

  /** The arrays have the sizes the instance dictates. */
  predicate Shaped(ins: Instance, s: Solution)
  {
    && |s.host| == ins.totalNumVertices
    && |s.input| == ins.totalNumVertices
    && IsMatrix(s.cuts, ins.totalNumVertices)
  }

  /** NumVerticesInLayer of a well-formed instance. */
  function Width(ins: Instance): nat
    requires WellFormed(ins)
  {
    NumVerticesInLayer(ins)
  }

  /** The n x n zero matrix. */
  function ZeroMatrix(n: nat): (r: seq<seq<int>>)
    ensures IsMatrix(r, n)
    ensures forall c, d :: 0 <= c < n && 0 <= d < n ==> r[c][d] == 0
  {
    seq(n, _ => seq(n, _ => 0))
  }

  /** The constructor from an instance: nothing placed, score unknown. */
  function NewSolution(ins: Instance): (r: Solution)
    requires WellFormed(ins)
    ensures Shaped(ins, r) && r.objective == IntMax
    ensures forall c, d :: 0 <= c < ins.totalNumVertices && 0 <= d < ins.totalNumVertices ==> r.cuts[c][d] == 0
  {
    var n := ins.totalNumVertices;
    Solution(seq(n, _ => 0), seq(n, _ => 0), IntMax, ZeroMatrix(n))
  }

  // ---------------------------------------------------------------------
  // Grid addressing

  /** getHostVertex: the slot of (layer, position). */
  function HostVertex(ins: Instance, layer: int, position: int): int
    requires WellFormed(ins)
  {
    Width(ins) * layer + position
  }

  /** getHostVertexAssignedTo. */
  function HostVertexAssignedTo(ins: Instance, s: Solution, v: int): int
    requires Shaped(ins, s) && 0 <= v < ins.totalNumVertices
  {
    s.input[v]
  }

  /** getPositionOfInputVertex: the column of v's slot within v's layer. */
  function PositionOf(ins: Instance, s: Solution, v: int): int
    requires WellFormed(ins) && Shaped(ins, s) && 0 <= v < ins.totalNumVertices
  {
    HostVertexAssignedTo(ins, s, v) - LayerOf(ins, v) * Width(ins)
  }

  /** getInputVertexAssignedTo: the vertex occupying (layer, position). */
  function InputVertexAssignedTo(ins: Instance, s: Solution, layer: int, position: int): int
    requires WellFormed(ins) && Shaped(ins, s)
    requires 0 <= HostVertex(ins, layer, position) < ins.totalNumVertices
  {
    s.host[HostVertex(ins, layer, position)]
  }

  /** setVertexPosition: v goes to (layer, position), both directions of
      the embedding are updated, nothing else changes. */
  function SetVertexPosition(ins: Instance, s: Solution, v: int, layer: int, position: int): (r: Solution)
    requires WellFormed(ins) && Shaped(ins, s) && 0 <= v < ins.totalNumVertices
    requires 0 <= HostVertex(ins, layer, position) < ins.totalNumVertices
    ensures Shaped(ins, r)
    ensures r.input[v] == HostVertex(ins, layer, position) && r.host[r.input[v]] == v
    ensures forall u :: 0 <= u < ins.totalNumVertices && u != v ==> r.input[u] == s.input[u]
    ensures forall k :: 0 <= k < ins.totalNumVertices && k != HostVertex(ins, layer, position) ==> r.host[k] == s.host[k]
    ensures r.objective == s.objective && r.cuts == s.cuts
  {
    var slot := HostVertex(ins, layer, position);
    s.(input := s.input[v := slot], host := s.host[slot := v])
  }

  /** The position of every vertex, as one table. */
  function Positions(ins: Instance, s: Solution): (p: seq<int>)
    requires WellFormed(ins) && Shaped(ins, s)
    ensures |p| == ins.totalNumVertices
    ensures forall v :: 0 <= v < |p| ==> p[v] == PositionOf(ins, s, v)
  {
    seq(ins.totalNumVertices, v requires 0 <= v < ins.totalNumVertices => PositionOf(ins, s, v))
  }

  /** A complete embedding: host and input are inverse bijections between
      vertices and slots, and every vertex sits in a slot of its own layer. */
  ghost predicate Placed(ins: Instance, s: Solution)
  {
    && WellFormed(ins)
    && Shaped(ins, s)
    && (forall v :: 0 <= v < ins.totalNumVertices ==>
          && 0 <= s.input[v] < ins.totalNumVertices
          && 0 <= PositionOf(ins, s, v) < Width(ins)
          && s.host[s.input[v]] == v)
    && (forall k :: 0 <= k < ins.totalNumVertices ==> 0 <= s.host[k] < ins.totalNumVertices)
    && (forall k {:trigger s.input[s.host[k]]} :: 0 <= k < ins.totalNumVertices ==> s.input[s.host[k]] == k)
  }

  /** The drawing's crossing number under the positions of s. */
  ghost function CrossingsOf(ins: Instance, s: Solution): int
    requires WellFormed(ins) && Shaped(ins, s)
  {
    Crossings(ins.shortEdges, ins.layerOf, ins.numberOfLayers, Positions(ins, s))
  }

  /** The matrix a from-scratch count would produce for s. */
  ghost function CountMatrixOf(ins: Instance, s: Solution): seq<seq<int>>
    requires WellFormed(ins) && Shaped(ins, s)
  {
    CountMatrix(ins.shortEdges, ins.layerOf, ins.numberOfLayers, Positions(ins, s), ins.totalNumVertices)
  }

  /** A complete embedding whose cached score and matrix agree with a
      from-scratch count. */
  ghost predicate Consistent(ins: Instance, s: Solution)
  {
    && Placed(ins, s)
    && s.objective == CrossingsOf(ins, s)
    && s.cuts == CountMatrixOf(ins, s)
  }

  // ---------------------------------------------------------------------
  // The crossing matrix

  /** M[a][b] += k. */
  function Bump(M: seq<seq<int>>, a: int, b: int, k: int): (r: seq<seq<int>>)
    requires IsMatrix(M, |M|) && 0 <= a < |M| && 0 <= b < |M|
    ensures IsMatrix(r, |M|)
    ensures forall c, d :: 0 <= c < |M| && 0 <= d < |M| ==>
      r[c][d] == M[c][d] + (if c == a && d == b then k else 0)
  {
    M[a := M[a][b := M[a][b] + k]]
  }

  /** M[a][b] := 0. */
  function ClearCell(M: seq<seq<int>>, a: int, b: int): (r: seq<seq<int>>)
    requires IsMatrix(M, |M|) && 0 <= a < |M| && 0 <= b < |M|
    ensures IsMatrix(r, |M|)
    ensures forall c, d :: 0 <= c < |M| && 0 <= d < |M| ==>
      r[c][d] == (if c == a && d == b then 0 else M[c][d])
  {
    M[a := M[a][b := 0]]
  }

  /** addMatrixCut: one more crossing for the source pair and for the
      target pair, each recorded above the diagonal. */
  function AddMatrixCut(M: seq<seq<int>>, e: Edge, f: Edge): (r: seq<seq<int>>)
    requires IsMatrix(M, |M|) && EdgeIn(e, |M|) && EdgeIn(f, |M|)
    ensures IsMatrix(r, |M|)
  {
    var M1 := if e.source < f.source then Bump(M, e.source, f.source, 1) else Bump(M, f.source, e.source, 1);
    if e.target < f.target then Bump(M1, e.target, f.target, 1) else Bump(M1, f.target, e.target, 1)
  }

  /** addMatrixNonCut: for edges with distinct sources and distinct targets,
      one more non-crossing for both pairs, each recorded below the diagonal. */
  function AddMatrixNonCut(M: seq<seq<int>>, e: Edge, f: Edge): (r: seq<seq<int>>)
    requires IsMatrix(M, |M|) && EdgeIn(e, |M|) && EdgeIn(f, |M|)
    ensures IsMatrix(r, |M|)
  {
    if e.source != f.source && e.target != f.target then
      var M1 := if e.source < f.source then Bump(M, f.source, e.source, 1) else Bump(M, e.source, f.source, 1);
      if e.target < f.target then Bump(M1, f.target, e.target, 1) else Bump(M1, e.target, f.target, 1)
    else M
  }

  /** removeMatrixCut: one crossing less for the target pair only. */
  function RemoveMatrixCut(M: seq<seq<int>>, e: Edge, f: Edge): (r: seq<seq<int>>)
    requires IsMatrix(M, |M|) && EdgeIn(e, |M|) && EdgeIn(f, |M|)
    ensures IsMatrix(r, |M|)
  {
    if e.target < f.target then Bump(M, e.target, f.target, -1) else Bump(M, f.target, e.target, -1)
  }

  /** removeMatrixNonCut: one non-crossing less for the target pair only. */
  function RemoveMatrixNonCut(M: seq<seq<int>>, e: Edge, f: Edge): (r: seq<seq<int>>)
    requires IsMatrix(M, |M|) && EdgeIn(e, |M|) && EdgeIn(f, |M|)
    ensures IsMatrix(r, |M|)
  {
    if e.source != f.source && e.target != f.target then
      if e.target < f.target then Bump(M, f.target, e.target, -1) else Bump(M, e.target, f.target, -1)
    else M
  }

  // ---------------------------------------------------------------------
  // Counting from scratch (__recalculateScore)

  /** Every edge of L has endpoints in [0, n). */
  predicate EdgesIn(L: seq<Edge>, n: int)
  {
    forall e :: e in L ==> EdgeIn(e, n)
  }

  /** The double loop over the pairs (i, j), i < j, of one layer's edges,
      resumed at (i, j), adding to `score` and to the matrix. */
  function RecountPairs(L: seq<Edge>, p: seq<int>, i: nat, j: nat, score: int, M: seq<seq<int>>): (r: (int, seq<seq<int>>))
    requires IsMatrix(M, |M|) && EdgesIn(L, |M|)
    ensures IsMatrix(r.1, |M|)
    decreases |L| - i, |L| - j
  {
    if i >= |L| then (score, M)
    else if j >= |L| then RecountPairs(L, p, i + 1, i + 2, score, M)
    else if Cut(p, L[i], L[j]) then RecountPairs(L, p, i, j + 1, score + 1, AddMatrixCut(M, L[i], L[j]))
    else RecountPairs(L, p, i, j + 1, score, AddMatrixNonCut(M, L[i], L[j]))
  }

  /** What the layer loop needs of the instance: every short edge joins two
      vertices of the drawing. */
  ghost predicate ShortEdgesInRange(ins: Instance)
  {
    |ins.layerOf| == ins.totalNumVertices && EdgesIn(ins.shortEdges, ins.totalNumVertices)
  }

  /** The loop over layers h, ..., numberOfLayers - 1. */
  function RecountLayers(ins: Instance, p: seq<int>, h: int, score: int, M: seq<seq<int>>): (r: (int, seq<seq<int>>))
    requires ShortEdgesInRange(ins) && IsMatrix(M, ins.totalNumVertices)
    ensures IsMatrix(r.1, ins.totalNumVertices)
    decreases ins.numberOfLayers - h
  {
    if h >= ins.numberOfLayers then (score, M)
    else
      var L := ShortEdgesOfLayer(ins, h);
      assert EdgesIn(L, |M|);
      var step := RecountPairs(L, p, 0, 1, score, M);
      RecountLayers(ins, p, h + 1, step.0, step.1)
  }

  /** __recalculateScore(matrix): the crossings of s, counted onto M. */
  function CountOnto(ins: Instance, s: Solution, M: seq<seq<int>>): (r: (int, seq<seq<int>>))
    requires WellFormed(ins) && Shaped(ins, s) && IsMatrix(M, ins.totalNumVertices)
    ensures IsMatrix(r.1, ins.totalNumVertices)
  {
    RecountLayers(ins, Positions(ins, s), 0, 0, M)
  }

  /** recalculateScore: a fresh zero matrix, counted from scratch; returns the
      updated solution (matrix replaced, cached score untouched) and the score. */
  function RecalculateScore(ins: Instance, s: Solution): (r: (Solution, int))
    requires WellFormed(ins) && Shaped(ins, s)
    ensures Shaped(ins, r.0) && r.0.host == s.host && r.0.input == s.input
    ensures r.0.objective == s.objective
  {
    var count := CountOnto(ins, s, ZeroMatrix(ins.totalNumVertices));
    (s.(cuts := count.1), count.0)
  }

  /** getScore: the cached score, computed onto the current matrix first when
      it still holds the IntMax marker. */
  function GetScore(ins: Instance, s: Solution): (r: (Solution, int))
    requires WellFormed(ins) && Shaped(ins, s)
    ensures Shaped(ins, r.0) && r.0.host == s.host && r.0.input == s.input
    ensures r.1 == r.0.objective
    ensures s.objective != IntMax ==> r == (s, s.objective)
  {
    if s.objective == IntMax then
      var count := CountOnto(ins, s, s.cuts);
      (s.(objective := count.0, cuts := count.1), count.0)
    else (s, s.objective)
  }

  /** setScore. */
  function SetScore(s: Solution, v: int): (r: Solution)
    ensures r.objective == v && r.host == s.host && r.input == s.input && r.cuts == s.cuts
  {
    s.(objective := v)
  }

  /** _isBetterThan: strictly fewer crossings. */
  function IsBetterThan(ins: Instance, a: Solution, b: Solution): bool
    requires WellFormed(ins) && Shaped(ins, a) && Shaped(ins, b)
  {
    GetScore(ins, a).1 < GetScore(ins, b).1
  }

  // ---------------------------------------------------------------------
  // Swapping two vertices of a layer

  /** The exchange of the slots of v1 and v2 that swap and fastSwap start with. */
  function Exchange(ins: Instance, s: Solution, v1: int, v2: int): (r: Solution)
    requires Shaped(ins, s) && 0 <= v1 < ins.totalNumVertices && 0 <= v2 < ins.totalNumVertices
    requires 0 <= s.input[v1] < ins.totalNumVertices && 0 <= s.input[v2] < ins.totalNumVertices
    ensures Shaped(ins, r) && r.objective == s.objective && r.cuts == s.cuts
    ensures r.input[v1] == s.input[v2] && r.input[v2] == s.input[v1]
    ensures forall u :: 0 <= u < ins.totalNumVertices && u != v1 && u != v2 ==> r.input[u] == s.input[u]
    ensures r.host[s.input[v1]] == s.host[s.input[v2]] && r.host[s.input[v2]] == s.host[s.input[v1]]
    ensures forall p :: 0 <= p < ins.totalNumVertices && p != s.input[v1] && p != s.input[v2] ==>
      r.host[p] == s.host[p]
    ensures s.host[s.input[v1]] == v1 && s.host[s.input[v2]] == v2 ==>
      r.host[s.input[v1]] == v2 && r.host[s.input[v2]] == v1
  {
    var input := s.input[v1 := s.input[v2]][v2 := s.input[v1]];
    var a := input[v1];
    var b := input[v2];
    var host := s.host[a := s.host[b]][b := s.host[a]];
    s.(input := input, host := host)
  }

  /** swap: exchange, then count from scratch. */
  function Swap(ins: Instance, s: Solution, v1: int, v2: int): (r: Solution)
    requires Placed(ins, s) && 0 <= v1 < ins.totalNumVertices && 0 <= v2 < ins.totalNumVertices
    requires ins.layerOf[v1] == ins.layerOf[v2]
    ensures Shaped(ins, r)
  {
    var s1 := Exchange(ins, s, v1, v2);
    var rc := RecalculateScore(ins, s1);
    rc.0.(objective := rc.1)
  }

  /** One cell pair of updateMatrix: the pair of edges (x, a), (y, b) is
      counted with the current positions and uncounted, for its target pair
      only, with the positions of x and y exchanged. */
  function UpdateStep(M: seq<seq<int>>, p: seq<int>, x: int, a: int, y: int, b: int): (r: seq<seq<int>>)
    requires IsMatrix(M, |M|) && EdgeIn(Edge(x, a), |M|) && EdgeIn(Edge(y, b), |M|)
    ensures IsMatrix(r, |M|)
  {
    var e := Edge(x, a);
    var f := Edge(y, b);
    var M1 := if Cut(p, e, f) then AddMatrixCut(M, e, f) else AddMatrixNonCut(M, e, f);
    if IsCutByPos(Pos(p, y), Pos(p, a), Pos(p, x), Pos(p, b)) then RemoveMatrixCut(M1, e, f)
    else RemoveMatrixNonCut(M1, e, f)
  }

  /** Every element of L is in [0, n). */
  predicate AllIn(L: seq<int>, n: int)
  {
    forall k :: 0 <= k < |L| ==> 0 <= L[k] < n
  }

  /** The inner loop of updateMatrix over v2's neighbours. */
  function UpdateInner(M: seq<seq<int>>, p: seq<int>, x: int, a: int, y: int, Lb: seq<int>): (r: seq<seq<int>>)
    requires IsMatrix(M, |M|) && 0 <= x < |M| && 0 <= a < |M| && 0 <= y < |M|
    requires AllIn(Lb, |M|)
    ensures IsMatrix(r, |M|)
  {
    if |Lb| == 0 then M
    else
      var M1 := UpdateInner(M, p, x, a, y, Lb[..|Lb| - 1]);
      UpdateStep(M1, p, x, a, y, Lb[|Lb| - 1])
  }

  /** updateMatrix: every neighbour of v1 against every neighbour of v2. */
  function UpdateMatrix(M: seq<seq<int>>, p: seq<int>, x: int, y: int, La: seq<int>, Lb: seq<int>): (r: seq<seq<int>>)
    requires IsMatrix(M, |M|) && 0 <= x < |M| && 0 <= y < |M|
    requires AllIn(La, |M|) && AllIn(Lb, |M|)
    ensures IsMatrix(r, |M|)
  {
    if |La| == 0 then M
    else
      var M1 := UpdateMatrix(M, p, x, y, La[..|La| - 1], Lb);
      UpdateInner(M1, p, x, La[|La| - 1], y, Lb)
  }

  lemma AdjacentInRange(ins: Instance, v: int, kind: AdjKind)
    requires WellFormed(ins) && 0 <= v < ins.totalNumVertices
    ensures v in ins.adjacency
    ensures AllIn(AdjacentList(ins, v, kind), ins.totalNumVertices)
  {
    var L := AdjacentList(ins, v, kind);
    forall k | 0 <= k < |L| ensures 0 <= L[k] < ins.totalNumVertices {
      var a := L[k];
      var E := ins.shortEdges;
      match kind {
        case Source =>
          SourceListMembers(E, v, a);
          var i :| 0 <= i < |E| && E[i] == Edge(v, a);
          assert E[i] in E;
        case Target =>
          TargetListMembers(E, v, a);
          var i :| 0 <= i < |E| && E[i] == Edge(a, v);
          assert E[i] in E;
        case All =>
          AllListMembers(E, v, a);
          if a in SourceList(E, v) {
            SourceListMembers(E, v, a);
            var i :| 0 <= i < |E| && E[i] == Edge(v, a);
            assert E[i] in E;
          } else {
            TargetListMembers(E, v, a);
            var i :| 0 <= i < |E| && E[i] == Edge(a, v);
            assert E[i] in E;
          }
      }
    }
  }

  /** fastSwapRecalculateScore(v1, v2) after v1 and v2 changed places: the
      score moves by the difference of the pair's two matrix cells, the two
      cells are rebuilt from the current positions, and the cells of the
      neighbour pairs are corrected. */
  function FastSwapRecalculateScore(ins: Instance, s: Solution, v1: int, v2: int): (r: Solution)
    requires WellFormed(ins) && Shaped(ins, s)
    requires 0 <= v1 < ins.totalNumVertices && 0 <= v2 < ins.totalNumVertices
    ensures Shaped(ins, r) && r.host == s.host && r.input == s.input
  {
    var x := if v1 > v2 then v2 else v1;
    var y := if v1 > v2 then v1 else v2;
    var objective := s.objective + s.cuts[y][x] - s.cuts[x][y];
    var M0 := ClearCell(ClearCell(s.cuts, x, y), y, x);
    var p := Positions(ins, s);
    AdjacentInRange(ins, x, Source);
    AdjacentInRange(ins, y, Source);
    AdjacentInRange(ins, x, Target);
    AdjacentInRange(ins, y, Target);
    var M1 := UpdateMatrix(M0, p, x, y, AdjacentList(ins, x, Source), AdjacentList(ins, y, Source));
    var M2 := UpdateMatrix(M1, p, x, y, AdjacentList(ins, x, Target), AdjacentList(ins, y, Target));
    s.(objective := objective, cuts := M2)
  }

  /** The columns strictly between the two swapped vertices, each visited
      with fastSwapRecalculateScore against both swapped vertices. */
  function FastSwapBetween(ins: Instance, s: Solution, v1: int, v2: int, layer: int, i: int, hi: int): (r: Solution)
    requires Placed(ins, s)
    requires 0 <= v1 < ins.totalNumVertices && 0 <= v2 < ins.totalNumVertices
    requires 0 <= layer < ins.numberOfLayers && hi <= Width(ins) && 0 <= i
    ensures Placed(ins, r) && r.host == s.host && r.input == s.input
    decreases hi - i
  {
    if i >= hi then s
    else
      assert 0 <= HostVertex(ins, layer, i) < ins.totalNumVertices by {
        SlotInRange(ins, layer, i);
      }
      var v3 := InputVertexAssignedTo(ins, s, layer, i);
      var s1 := FastSwapRecalculateScore(ins, s, v1, v3);
      var s2 := FastSwapRecalculateScore(ins, s1, v2, v3);
      FastSwapBetween(ins, s2, v1, v2, layer, i + 1, hi)
  }

  /** Slot W * layer + column determines layer and column. */
  lemma SlotUnique(W: int, a: int, x: int, b: int, y: int)
    requires 0 <= x < W && 0 <= y < W && W * a + x == W * b + y
    ensures a == b && x == y
  {
    if a < b {
      MulMono(W, a + 1, b);
    } else if b < a {
      MulMono(W, b + 1, a);
    }
  }

  lemma MulMono(W: int, a: int, b: int)
    requires 0 <= W && a <= b
    ensures W * a <= W * b
  {
    assert W * b - W * a == W * (b - a);
  }

  /** The vertex occupying (layer, column) of a complete embedding lies in
      that layer, at that column. */
  lemma Occupant(ins: Instance, s: Solution, layer: int, i: int)
    requires Placed(ins, s) && 0 <= layer < ins.numberOfLayers && 0 <= i < Width(ins)
    ensures 0 <= HostVertex(ins, layer, i) < ins.totalNumVertices
    ensures 0 <= InputVertexAssignedTo(ins, s, layer, i) < ins.totalNumVertices
    ensures ins.layerOf[InputVertexAssignedTo(ins, s, layer, i)] == layer
    ensures PositionOf(ins, s, InputVertexAssignedTo(ins, s, layer, i)) == i
  {
    SlotInRange(ins, layer, i);
    var k := HostVertex(ins, layer, i);
    var v := s.host[k];
    assert s.input[v] == k;
    var W := Width(ins);
    assert W * ins.layerOf[v] + PositionOf(ins, s, v) == W * layer + i;
    SlotUnique(W, ins.layerOf[v], PositionOf(ins, s, v), layer, i);
  }

  lemma SlotInRange(ins: Instance, layer: int, i: int)
    requires WellFormed(ins) && 0 <= layer < ins.numberOfLayers && 0 <= i < Width(ins)
    ensures 0 <= HostVertex(ins, layer, i) < ins.totalNumVertices
  {
    var W := Width(ins);
    assert W * layer + i < W * layer + W == W * (layer + 1) <= W * ins.numberOfLayers;
  }

  /** Vertices of the same layer exchange slots and stay a complete embedding. */
  lemma ExchangePlaced(ins: Instance, s: Solution, v1: int, v2: int)
    requires Placed(ins, s) && 0 <= v1 < ins.totalNumVertices && 0 <= v2 < ins.totalNumVertices
    requires ins.layerOf[v1] == ins.layerOf[v2]
    ensures Placed(ins, Exchange(ins, s, v1, v2))
    ensures PositionOf(ins, Exchange(ins, s, v1, v2), v1) == PositionOf(ins, s, v2)
    ensures PositionOf(ins, Exchange(ins, s, v1, v2), v2) == PositionOf(ins, s, v1)
  {
    var r := Exchange(ins, s, v1, v2);
    var n := ins.totalNumVertices;
    var a := s.input[v1];
    var b := s.input[v2];
    assert r.host == s.host[b := s.host[a]][a := s.host[b]];
    forall k | 0 <= k < n ensures 0 <= r.host[k] < n && r.input[r.host[k]] == k {
      if k == a {
      } else if k == b {
      } else {
        assert r.host[k] == s.host[k];
        assert s.host[k] != v1 && s.host[k] != v2;
      }
    }
  }

  /** The smaller of the columns of v1 and v2. */
  function SwapLo(ins: Instance, s: Solution, v1: int, v2: int): (r: int)
    requires Placed(ins, s) && 0 <= v1 < ins.totalNumVertices && 0 <= v2 < ins.totalNumVertices
    ensures 0 <= r < Width(ins)
    ensures r <= PositionOf(ins, s, v1) && r <= PositionOf(ins, s, v2)
    ensures r == PositionOf(ins, s, v1) || r == PositionOf(ins, s, v2)
  {
    if PositionOf(ins, s, v2) < PositionOf(ins, s, v1) then PositionOf(ins, s, v2) else PositionOf(ins, s, v1)
  }

  /** The larger of the columns of v1 and v2. */
  function SwapHi(ins: Instance, s: Solution, v1: int, v2: int): (r: int)
    requires Placed(ins, s) && 0 <= v1 < ins.totalNumVertices && 0 <= v2 < ins.totalNumVertices
    ensures 0 <= r < Width(ins)
    ensures PositionOf(ins, s, v1) <= r && PositionOf(ins, s, v2) <= r
    ensures r == PositionOf(ins, s, v1) || r == PositionOf(ins, s, v2)
  {
    if PositionOf(ins, s, v2) < PositionOf(ins, s, v1) then PositionOf(ins, s, v1) else PositionOf(ins, s, v2)
  }

  /** The second half of fastSwap, on the already exchanged solution s1:
      correct the pair itself, then every column strictly between them.
      The last ensures exposes the unfolding, so that proofs about fastSwap
      obtain it without unfolding the definition. */
  function FastSwapAfterExchange(ins: Instance, s1: Solution, v1: int, v2: int): (r: Solution)
    requires Placed(ins, s1) && 0 <= v1 < ins.totalNumVertices && 0 <= v2 < ins.totalNumVertices
    requires ins.layerOf[v1] == ins.layerOf[v2]
    ensures Placed(ins, r) && r.input == s1.input && r.host == s1.host
    ensures 0 <= ins.layerOf[v1] < ins.numberOfLayers
    ensures r == FastSwapBetween(ins, FastSwapRecalculateScore(ins, s1, v1, v2), v1, v2, ins.layerOf[v1],
                                 SwapLo(ins, s1, v1, v2) + 1, SwapHi(ins, s1, v1, v2))
  {
    assert LayersWellFormed(ins);
    FastSwapBetween(ins, FastSwapRecalculateScore(ins, s1, v1, v2), v1, v2, ins.layerOf[v1],
                    SwapLo(ins, s1, v1, v2) + 1, SwapHi(ins, s1, v1, v2))
  }

  /** fastSwap(v1, v2): exchange the slots, then correct score and matrix
      pair by pair instead of counting from scratch. */
  function FastSwap(ins: Instance, s: Solution, v1: int, v2: int): (r: Solution)
    requires Placed(ins, s) && 0 <= v1 < ins.totalNumVertices && 0 <= v2 < ins.totalNumVertices
    requires ins.layerOf[v1] == ins.layerOf[v2]
    ensures Placed(ins, r)
    ensures r.input == Exchange(ins, s, v1, v2).input && r.host == Exchange(ins, s, v1, v2).host
  {
    ExchangePlaced(ins, s, v1, v2);
    FastSwapAfterExchange(ins, Exchange(ins, s, v1, v2), v1, v2)
  }

  /** getVariationOfSingleSwap: the difference of the pair's two cells. */
  function SingleVariation(ins: Instance, s: Solution, v1: int, v2: int): int
    requires Shaped(ins, s) && 0 <= v1 < ins.totalNumVertices && 0 <= v2 < ins.totalNumVertices
  {
    var x := if v1 > v2 then v2 else v1;
    var y := if v1 > v2 then v1 else v2;
    s.cuts[y][x] - s.cuts[x][y]
  }

  function VariationBetween(ins: Instance, s: Solution, v1: int, v2: int, layer: int, i: int, hi: int): int
    requires Placed(ins, s)
    requires 0 <= v1 < ins.totalNumVertices && 0 <= v2 < ins.totalNumVertices
    requires 0 <= layer < ins.numberOfLayers && hi <= Width(ins) && 0 <= i
    decreases hi - i
  {
    if i >= hi then 0
    else
      SlotInRange(ins, layer, i);
      var v3 := InputVertexAssignedTo(ins, s, layer, i);
      SingleVariation(ins, s, v1, v3) + SingleVariation(ins, s, v2, v3)
        + VariationBetween(ins, s, v1, v2, layer, i + 1, hi)
  }

  /** getVariation(v1, v2): the score change fastSwap(v1, v2) would make,
      read off the matrix without changing anything. */
  function GetVariation(ins: Instance, s: Solution, v1: int, v2: int): int
    requires Placed(ins, s) && 0 <= v1 < ins.totalNumVertices && 0 <= v2 < ins.totalNumVertices
  {
    var posV1 := PositionOf(ins, s, v1);
    var posV2 := PositionOf(ins, s, v2);
    var lo := if posV2 < posV1 then posV2 else posV1;
    var hi := if posV2 < posV1 then posV1 else posV2;
    SingleVariation(ins, s, v1, v2) + VariationBetween(ins, s, v1, v2, ins.layerOf[v1], lo + 1, hi)
  }

  // ---------------------------------------------------------------------
  // Long edges

  /** The positions of the chain of a long edge lie in the grid. */
  lemma PositionInLayer(ins: Instance, s: Solution, v: int)
    requires Placed(ins, s) && 0 <= v < ins.totalNumVertices
    ensures 0 <= PositionOf(ins, s, v) < Width(ins)
  {
  }

  /** swapLongEdge(le, position): fastSwap the long edge's source, then each
      chain vertex, with whatever occupies `position` in its layer. */
  function SwapLongEdge(ins: Instance, s: Solution, le: Edge, position: int): (r: Solution)
    requires Placed(ins, s) && le in ins.longEdges && 0 <= position < Width(ins)
    ensures Placed(ins, r)
  {
    assert ChainWellFormed(ins, le);
    var layer := ins.layerOf[le.source];
    Occupant(ins, s, layer, position);
    var occupant := InputVertexAssignedTo(ins, s, layer, position);
    var s1 := FastSwap(ins, s, le.source, occupant);
    SwapChain(ins, s1, ins.chains[le], 0, position)
  }

  /** The loop of swapLongEdge over the chain edges k, k + 1, ... */
  function SwapChain(ins: Instance, s: Solution, chain: seq<Edge>, k: nat, position: int): (r: Solution)
    requires Placed(ins, s) && 0 <= position < Width(ins)
    requires forall j :: 0 <= j < |chain| ==> 0 <= chain[j].target < ins.totalNumVertices
    ensures Placed(ins, r)
    decreases |chain| - k
  {
    if k >= |chain| then s
    else
      var v := chain[k].target;
      assert 0 <= ins.layerOf[v] < ins.numberOfLayers by {
        assert LayersWellFormed(ins);
      }
      var layer := ins.layerOf[v];
      Occupant(ins, s, layer, position);
      var occupant := InputVertexAssignedTo(ins, s, layer, position);
      var s1 := FastSwap(ins, s, v, occupant);
      SwapChain(ins, s1, chain, k + 1, position)
  }

  function Abs(x: int): nat
  {
    if x < 0 then -x else x
  }

  /** getAlignmentOfLongEdge: the summed column distance of the chain
      targets from the long edge's source. */
  function AlignmentOfLongEdge(ins: Instance, s: Solution, le: Edge): (r: nat)
    requires WellFormed(ins) && Shaped(ins, s) && le in ins.longEdges
  {
    assert ChainWellFormed(ins, le);
    ChainDistance(ins, s, ins.chains[le], PositionOf(ins, s, le.source))
  }

  function ChainDistance(ins: Instance, s: Solution, chain: seq<Edge>, origin: int): (r: nat)
    requires WellFormed(ins) && Shaped(ins, s)
    requires forall e :: e in chain ==> 0 <= e.target < ins.totalNumVertices
    ensures r == 0 <==> forall k :: 0 <= k < |chain| ==> PositionOf(ins, s, chain[k].target) == origin
  {
    if |chain| == 0 then 0
    else
      var rest := ChainDistance(ins, s, chain[1..], origin);
      assert forall k :: 1 <= k < |chain| ==> chain[1..][k - 1] == chain[k];
      Abs(PositionOf(ins, s, chain[0].target) - origin) + rest
  }

  /** getAlignment: the alignment of all long edges. */
  function Alignment(ins: Instance, s: Solution): (r: nat)
    requires WellFormed(ins) && Shaped(ins, s)
  {
    AlignmentFrom(ins, s, ins.longEdges)
  }

  function AlignmentFrom(ins: Instance, s: Solution, les: seq<Edge>): (r: nat)
    requires WellFormed(ins) && Shaped(ins, s)
    requires forall le :: le in les ==> le in ins.longEdges
    ensures r == 0 <==> forall k :: 0 <= k < |les| ==> AlignmentOfLongEdge(ins, s, les[k]) == 0
  {
    if |les| == 0 then 0
    else
      assert forall k :: 1 <= k < |les| ==> les[1..][k - 1] == les[k];
      AlignmentOfLongEdge(ins, s, les[0]) + AlignmentFrom(ins, s, les[1..])
  }
}
