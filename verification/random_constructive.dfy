/** The fallback constructor (GDRandomConstructive). An attempt places the
    long edges in the instance's order, each whole chain in a column drawn
    from those where it fits, then the real vertices without a long edge
    in shuffled order, each in the lowest free cell of its layer. Its
    phases answer true for FAILURE. construct repeats attempts on fresh
    copies of the start solution until one succeeds, then scores it.

    The attempt runs on the same build state as the GRASP constructor; the
    placed set and the edge lists of that state are bookkeeping this
    constructor never reads. */
module RandomConstructive {
  import opened GraphModel
  import opened Solutions
  import opened PlacementRules
  import opened GraspState
  import opened GraspRules
  import opened GraspPhases
  import RecountProofs

  // ---------------------------------------------------------------------
  // getAvailablePosition

  /** getAvailablePosition(used, layer), scanning the row from column i: the
      lowest free column, or -1 when every cell is used. */
  function AvailablePosition(row: seq<bool>, i: nat): (r: int)
    requires i <= |row|
    ensures r == -1 || (i <= r < |row| && !row[r])
    ensures r == -1 <==> forall c :: i <= c < |row| ==> row[c]
    ensures forall c :: i <= c < r ==> row[c]
    decreases |row| - i
  {
    if i == |row| then -1
    else if !row[i] then i
    else AvailablePosition(row, i + 1)
  }

  /** The lowest free column is the first of the free columns the RANDOM
      vertex rule lists, and -1 exactly when that list is empty. */
  lemma AvailablePositionFirst(used: seq<seq<bool>>, layer: int, w: int)
    requires 0 <= layer < |used| && |used[layer]| == w
    ensures var free := RandomVertexRule(used, layer, w);
      AvailablePosition(used[layer], 0) == if |free| == 0 then -1 else free[0]
  {
    var free := RandomVertexRule(used, layer, w);
    var r := AvailablePosition(used[layer], 0);
    if |free| > 0 {
      assert free[0] in free;
      assert r in free;
      var j :| 0 <= j < |free| && free[j] == r;
      assert free[0] <= r;
    }
  }

  // ---------------------------------------------------------------------
  // Which vertices the two phases place

  /** A real vertex without a long edge: the vertices addShortEdges places. */
  ghost predicate Loose(ins: Instance, v: int)
  {
    v in ins.realVertices && !HasLongEdge(ins, v)
  }

  /** A chain vertex that is not an endpoint of its long edge is a dummy: the
      importer's dummies are the chain targets other than the final one. */
  ghost predicate InteriorsDummy(ins: Instance)
  {
    forall le, k :: le in ins.longEdges && le in ins.chains && 0 <= k < |ins.chains[le]| - 1 ==>
      ins.chains[le][k].target in ins.dummyVertices
  }

  /** No vertex of a chain is loose: the endpoints have a long edge and the
      interior vertices are dummies. */
  lemma OffChains(ins: Instance, le: Edge)
    requires WellFormed(ins) && InteriorsDummy(ins) && le in ins.longEdges
    ensures le in ins.chains && forall v :: v in ChainVertices(ins, le) ==> !Loose(ins, v)
  {
    ChainShapeOf(ins, le);
    assert PartitionWellFormed(ins);
    var c := ins.chains[le];
    var i :| 0 <= i < |ins.longEdges| && ins.longEdges[i] == le;
    assert IsEndpoint(le, le.source) && IsEndpoint(le, le.target);
    forall k | 0 <= k < |c| ensures !Loose(ins, c[k].target) {
      if k < |c| - 1 {
        assert c[k].target in ins.dummyVertices;
      }
    }
  }

  // ---------------------------------------------------------------------
  // addLongEdges

  /** The body of addLongEdges for one long edge: true (failure) when no
      column fits it, otherwise the chain goes to a drawn fitting column. */
  function RandomLongEdgeStep(ins: Instance, b: Build, le: Edge, rnd: seq<nat>): (r: (bool, Build, seq<nat>))
    requires Ready(ins, b) && le in ins.longEdges
    ensures Ready(ins, r.1)
    ensures r.0 ==> r.1 == b
  {
    LongEdgeSpan(ins, le);
    var layer := ins.layerOf[le.source];
    var size := |ins.chains[le]| + 1;
    assert Rows(b.used, layer, size, Width(ins));
    var cands := RandomRule(b.used, layer, size, Width(ins));
    if |cands| == 0 then (true, b, rnd)
    else
      var pick := PickRandom(cands, rnd);
      AddLongEdgeInGrid(ins, b, le, pick.0);
      (false, AddLongEdge(ins, b, le, pick.0), pick.1)
  }

  /** addLongEdges over the remaining long edges, in the given order. */
  function RandomLongEdges(ins: Instance, b: Build, les: seq<Edge>, rnd: seq<nat>): (r: (bool, Build, seq<nat>))
    requires Ready(ins, b) && forall le :: le in les ==> le in ins.longEdges
    ensures Ready(ins, r.1)
    decreases |les|
  {
    if |les| == 0 then (false, b, rnd)
    else
      assert les[0] in les;
      var step := RandomLongEdgeStep(ins, b, les[0], rnd);
      if step.0 then step
      else RandomLongEdges(ins, step.1, les[1..], step.2)
  }

  /** A long edge that is still unplaced and finds a column is placed whole
      in it, the grid stays consistent, and no loose vertex is placed. */
  lemma RandomLongEdgeStepPlaces(ins: Instance, b: Build, le: Edge, rnd: seq<nat>)
    requires Ready(ins, b) && Occupancy(ins, b) && InteriorsDummy(ins)
    requires le in ins.longEdges && le in ins.chains && ChainVertices(ins, le) !! b.added
    ensures forall v :: v in RandomLongEdgeStep(ins, b, le, rnd).1.added && v !in b.added ==> !Loose(ins, v)
    ensures !RandomLongEdgeStep(ins, b, le, rnd).0 ==>
      && Occupancy(ins, RandomLongEdgeStep(ins, b, le, rnd).1)
      && RandomLongEdgeStep(ins, b, le, rnd).1.added == b.added + ChainVertices(ins, le)
  {
    LongEdgeSpan(ins, le);
    OffChains(ins, le);
    var layer := ins.layerOf[le.source];
    var size := |ins.chains[le]| + 1;
    var cands := RandomRule(b.used, layer, size, Width(ins));
    if |cands| > 0 {
      var pos := PickRandom(cands, rnd).0;
      AddLongEdgeOccupancy(ins, b, le, pos);
      AddLongEdgePlaces(ins, b, le, pos);
    }
  }

  /** addLongEdges places no loose vertex and, when it reports no failure,
      has placed the chain of every long edge, each cell once. */
  lemma {:induction false} RandomLongEdgesPlaces(ins: Instance, b: Build, les: seq<Edge>, rnd: seq<nat>)
    requires Ready(ins, b) && Occupancy(ins, b) && InteriorsDummy(ins)
    requires forall le :: le in les ==> le in ins.longEdges
    requires Once(les)
    requires forall le :: le in les ==> le in ins.chains && ChainVertices(ins, le) !! b.added
    requires forall le :: le in ins.longEdges && le !in les ==> le in ins.chains && ChainVertices(ins, le) <= b.added
    ensures forall v :: v in RandomLongEdges(ins, b, les, rnd).1.added && v !in b.added ==> !Loose(ins, v)
    ensures !RandomLongEdges(ins, b, les, rnd).0 ==>
      && Occupancy(ins, RandomLongEdges(ins, b, les, rnd).1)
      && forall le :: le in ins.longEdges ==> le in ins.chains && ChainVertices(ins, le) <= RandomLongEdges(ins, b, les, rnd).1.added
    decreases |les|
  {
    if |les| > 0 {
      assert les[0] in les;
      var step := RandomLongEdgeStep(ins, b, les[0], rnd);
      RandomLongEdgeStepPlaces(ins, b, les[0], rnd);
      if !step.0 {
        LongEdgesLeft(ins, les, les[1..], b.added, step.1.added);
        RandomLongEdgesPlaces(ins, step.1, les[1..], step.2);
      }
    }
  }

  // ---------------------------------------------------------------------
  // addShortEdges

  /** The body of addShortEdges for one vertex: a vertex with a long edge is
      skipped; any other goes to the lowest free cell of its layer, and a
      full layer is a failure. */
  function RandomVertexStep(ins: Instance, b: Build, v: int): (r: (bool, Build))
    requires Ready(ins, b) && 0 <= v < ins.totalNumVertices
    ensures Ready(ins, r.1)
    ensures r.0 ==> r.1 == b
    ensures HasLongEdge(ins, v) ==> r == (false, b)
  {
    if HasLongEdge(ins, v) then (false, b)
    else
      assert LayersWellFormed(ins);
      var pos := AvailablePosition(b.used[ins.layerOf[v]], 0);
      if pos == -1 then (true, b)
      else
        AddVertexInGrid(ins, b, v, pos);
        (false, AddVertex(ins, b, v, pos))
  }

  /** addShortEdges over the remaining vertices. */
  function RandomVertices(ins: Instance, b: Build, vs: seq<int>): (r: (bool, Build))
    requires Ready(ins, b) && forall v :: v in vs ==> 0 <= v < ins.totalNumVertices
    ensures Ready(ins, r.1)
    decreases |vs|
  {
    if |vs| == 0 then (false, b)
    else
      assert vs[0] in vs;
      var step := RandomVertexStep(ins, b, vs[0]);
      if step.0 then step
      else
        assert Ready(ins, step.1);
        assert forall v :: v in vs[1..] ==> v in vs;
        RandomVertices(ins, step.1, vs[1..])
  }

  /** A vertex without a long edge that is not placed yet goes to the lowest
      free cell of its layer, the grid stays consistent, and a failure
      means the layer is full. */
  lemma RandomVertexStepPlaces(ins: Instance, b: Build, v: int)
    requires Ready(ins, b) && Occupancy(ins, b) && 0 <= v < ins.totalNumVertices
    requires !HasLongEdge(ins, v) ==> v !in b.added
    ensures Occupancy(ins, RandomVertexStep(ins, b, v).1)
    ensures 0 <= ins.layerOf[v] < ins.numberOfLayers
    ensures RandomVertexStep(ins, b, v).0 <==> !HasLongEdge(ins, v) && forall c :: 0 <= c < Width(ins) ==> b.used[ins.layerOf[v]][c]
    ensures !HasLongEdge(ins, v) && !RandomVertexStep(ins, b, v).0 ==>
      && RandomVertexStep(ins, b, v).1.added == b.added + {v}
      && PositionOf(ins, RandomVertexStep(ins, b, v).1.s, v) == AvailablePosition(b.used[ins.layerOf[v]], 0)
  {
    assert LayersWellFormed(ins);
    if !HasLongEdge(ins, v) {
      var pos := AvailablePosition(b.used[ins.layerOf[v]], 0);
      if pos != -1 {
        AddVertexOccupancy(ins, b, v, pos);
      }
    }
  }

  /** addShortEdges keeps the grid consistent and, when it reports no
      failure, has placed every listed vertex without a long edge. */
  lemma {:induction false} RandomVerticesPlaces(ins: Instance, b: Build, vs: seq<int>)
    requires Ready(ins, b) && Occupancy(ins, b) && Once(vs)
    requires forall v :: v in vs ==> v in ins.realVertices && 0 <= v < ins.totalNumVertices && (Loose(ins, v) ==> v !in b.added)
    ensures Occupancy(ins, RandomVertices(ins, b, vs).1)
    ensures b.added <= RandomVertices(ins, b, vs).1.added
    ensures !RandomVertices(ins, b, vs).0 ==>
      forall v :: v in vs && Loose(ins, v) ==> v in RandomVertices(ins, b, vs).1.added
    decreases |vs|
  {
    if |vs| > 0 {
      var v := vs[0];
      assert v in vs;
      var step := RandomVertexStep(ins, b, v);
      RandomVertexStepPlaces(ins, b, v);
      if !step.0 {
        VerticesLeft(vs, vs[1..]);
        RandomVerticesPlaces(ins, step.1, vs[1..]);
      }
    }
  }

  // ---------------------------------------------------------------------
  // constructSolution and construct

  /** addLongEdges on a copy s0 of the start solution, from an empty grid,
      in the instance's order of long edges. */
  function RandomLongEdgePhase(ins: Instance, s0: Solution, rnd: seq<nat>): (r: (bool, Build, seq<nat>))
    requires WellFormed(ins) && Shaped(ins, s0)
    ensures Ready(ins, r.1)
  {
    var b0 := NewBuild(ins, s0);
    assert Ready(ins, b0);
    RandomLongEdges(ins, b0, ins.longEdges, rnd)
  }

  /** addShortEdges: the real vertices (listed in `order`, the iteration
      order of the real-vertex set) in shuffled order. */
  function RandomVertexPhase(ins: Instance, b: Build, order: seq<int>, rnd: seq<nat>): (r: (bool, Build, seq<nat>))
    requires WellFormed(ins) && Ready(ins, b) && forall v :: v in order ==> v in ins.realVertices
    ensures Ready(ins, r.1)
  {
    RealVerticesKnown(ins, order);
    var sh := Shuffle(order, rnd);
    ShuffledKnown(ins, order, sh.0);
    var vs := RandomVertices(ins, b, sh.0);
    (vs.0, vs.1, sh.1)
  }

  /** A reordering of real vertices lists real vertices only. */
  lemma ShuffledKnown(ins: Instance, order: seq<int>, vs: seq<int>)
    requires WellFormed(ins) && forall v :: v in order ==> v in ins.realVertices
    requires multiset(vs) == multiset(order)
    ensures forall v :: v in vs <==> v in order
    ensures forall v :: v in vs ==> v in ins.realVertices && 0 <= v < ins.totalNumVertices
  {
    assert forall v :: v in vs <==> v in multiset(order);
    RealVerticesKnown(ins, order);
  }

  /** constructSolution: the long edges, then, unless they failed, the real
      vertices. The first component is true when the attempt failed. */
  function RandomAttempt(ins: Instance, s0: Solution, order: seq<int>, rnd: seq<nat>): (r: (bool, Build, seq<nat>))
    requires WellFormed(ins) && Shaped(ins, s0) && forall v :: v in order ==> v in ins.realVertices
    ensures Ready(ins, r.1)
  {
    var les := RandomLongEdgePhase(ins, s0, rnd);
    if les.0 then les else RandomVertexPhase(ins, les.1, order, les.2)
  }

  /** The long-edge phase places only chain vertices and, when it succeeds,
      every chain, each cell once. */
  lemma RandomLongEdgePhasePlaces(ins: Instance, s0: Solution, rnd: seq<nat>)
    requires WellFormed(ins) && Shaped(ins, s0) && InteriorsDummy(ins)
    ensures forall v :: v in RandomLongEdgePhase(ins, s0, rnd).1.added ==> !Loose(ins, v)
    ensures !RandomLongEdgePhase(ins, s0, rnd).0 ==>
      && Occupancy(ins, RandomLongEdgePhase(ins, s0, rnd).1)
      && forall le :: le in ins.longEdges ==> le in ins.chains && ChainVertices(ins, le) <= RandomLongEdgePhase(ins, s0, rnd).1.added
  {
    var b0 := NewBuild(ins, s0);
    NewBuildOccupancy(ins, s0);
    LongEdgesStart(ins, ins.longEdges);
    RandomLongEdgesPlaces(ins, b0, ins.longEdges, rnd);
  }

  /** The vertex phase keeps the chains placed and the grid consistent and,
      when it succeeds, has placed every loose vertex of `order`. */
  lemma RandomVertexPhasePlaces(ins: Instance, b: Build, order: seq<int>, rnd: seq<nat>)
    requires WellFormed(ins) && Ready(ins, b) && Occupancy(ins, b)
    requires NoRepeats(order) && forall v :: v in order ==> v in ins.realVertices
    requires forall v :: v in b.added ==> !Loose(ins, v)
    ensures Occupancy(ins, RandomVertexPhase(ins, b, order, rnd).1)
    ensures b.added <= RandomVertexPhase(ins, b, order, rnd).1.added
    ensures !RandomVertexPhase(ins, b, order, rnd).0 ==>
      forall v :: v in order && Loose(ins, v) ==> v in RandomVertexPhase(ins, b, order, rnd).1.added
  {
    RealVerticesKnown(ins, order);
    var sh := Shuffle(order, rnd);
    NoRepeatsCount(order);
    ShuffledKnown(ins, order, sh.0);
    assert Once(sh.0) by {
      assert multiset(sh.0) == multiset(order);
    }
    RandomVerticesPlaces(ins, b, sh.0);
  }

  /** A successful attempt has placed the chain of every long edge and every
      real vertex without a long edge, each cell once. */
  lemma RandomAttemptPlaces(ins: Instance, s0: Solution, order: seq<int>, rnd: seq<nat>)
    requires WellFormed(ins) && Shaped(ins, s0) && InteriorsDummy(ins)
    requires NoRepeats(order) && forall v :: v in order ==> v in ins.realVertices
    ensures !RandomAttempt(ins, s0, order, rnd).0 ==>
      && Occupancy(ins, RandomAttempt(ins, s0, order, rnd).1)
      && (forall le :: le in ins.longEdges ==> le in ins.chains && ChainVertices(ins, le) <= RandomAttempt(ins, s0, order, rnd).1.added)
      && (forall v :: v in order && Loose(ins, v) ==> v in RandomAttempt(ins, s0, order, rnd).1.added)
  {
    RandomLongEdgePhasePlaces(ins, s0, rnd);
    var les := RandomLongEdgePhase(ins, s0, rnd);
    if !les.0 {
      RandomVertexPhasePlaces(ins, les.1, order, les.2);
    }
  }

  /** What construct returns: the scored solution of the first successful
      attempt, or nothing when the allowed attempts ran out (the source
      loops until an attempt succeeds). */
  datatype Retry = Constructed(s: Solution) | GaveUp

  /** construct(solution) with at most `fuel` attempts: each attempt starts
      from a copy of the start solution and consumes the draws the previous
      one left; the first attempt that does not fail is scored with
      getScore. */
  function RandomConstruct(ins: Instance, s0: Solution, order: seq<int>, rnd: seq<nat>, fuel: nat): (r: Retry)
    requires WellFormed(ins) && Shaped(ins, s0) && forall v :: v in order ==> v in ins.realVertices
    ensures r.Constructed? ==> Shaped(ins, r.s)
    decreases fuel
  {
    if fuel == 0 then GaveUp
    else
      var a := RandomAttempt(ins, s0, order, rnd);
      if a.0 then RandomConstruct(ins, s0, order, a.2, fuel - 1)
      else Constructed(GetScore(ins, a.1.s).0)
  }

  // ---------------------------------------------------------------------
  // The score of the constructed solution

  /** Placing one long edge keeps the copy's cached score and matrix. */
  lemma RandomLongEdgeStepKeepsScore(ins: Instance, b: Build, le: Edge, rnd: seq<nat>)
    requires Ready(ins, b) && le in ins.longEdges
    ensures RandomLongEdgeStep(ins, b, le, rnd).1.s.objective == b.s.objective
    ensures RandomLongEdgeStep(ins, b, le, rnd).1.s.cuts == b.s.cuts
  {
    LongEdgeSpan(ins, le);
    var cands := RandomRule(b.used, ins.layerOf[le.source], |ins.chains[le]| + 1, Width(ins));
    if |cands| > 0 {
      AddLongEdgeKeepsScore(ins, b, le, PickRandom(cands, rnd).0);
    }
  }

  lemma {:induction false} RandomLongEdgesKeepsScore(ins: Instance, b: Build, les: seq<Edge>, rnd: seq<nat>)
    requires Ready(ins, b) && forall le :: le in les ==> le in ins.longEdges
    ensures RandomLongEdges(ins, b, les, rnd).1.s.objective == b.s.objective
    ensures RandomLongEdges(ins, b, les, rnd).1.s.cuts == b.s.cuts
    decreases |les|
  {
    if |les| > 0 {
      assert les[0] in les;
      var step := RandomLongEdgeStep(ins, b, les[0], rnd);
      RandomLongEdgeStepKeepsScore(ins, b, les[0], rnd);
      if !step.0 {
        RandomLongEdgesKeepsScore(ins, step.1, les[1..], step.2);
      }
    }
  }

  lemma {:induction false} RandomVerticesKeepsScore(ins: Instance, b: Build, vs: seq<int>)
    requires Ready(ins, b) && forall v :: v in vs ==> 0 <= v < ins.totalNumVertices
    ensures RandomVertices(ins, b, vs).1.s.objective == b.s.objective
    ensures RandomVertices(ins, b, vs).1.s.cuts == b.s.cuts
    decreases |vs|
  {
    if |vs| > 0 {
      assert vs[0] in vs;
      var step := RandomVertexStep(ins, b, vs[0]);
      if !step.0 {
        assert forall v :: v in vs[1..] ==> v in vs;
        RandomVerticesKeepsScore(ins, step.1, vs[1..]);
      }
    }
  }

  /** constructSolution changes only the embedding of the copy: its cached
      score and crossing matrix are those of the start solution. */
  lemma RandomAttemptKeepsScore(ins: Instance, s0: Solution, order: seq<int>, rnd: seq<nat>)
    requires WellFormed(ins) && Shaped(ins, s0) && forall v :: v in order ==> v in ins.realVertices
    ensures RandomAttempt(ins, s0, order, rnd).1.s.objective == s0.objective
    ensures RandomAttempt(ins, s0, order, rnd).1.s.cuts == s0.cuts
  {
    var b0 := NewBuild(ins, s0);
    assert Ready(ins, b0);
    RandomLongEdgesKeepsScore(ins, b0, ins.longEdges, rnd);
    var les := RandomLongEdgePhase(ins, s0, rnd);
    if !les.0 {
      RealVerticesKnown(ins, order);
      var sh := Shuffle(order, les.2);
      ShuffledKnown(ins, order, sh.0);
      RandomVerticesKeepsScore(ins, les.1, sh.0);
    }
  }

  /** The draws the attempt that construct keeps starts from: each failed
      attempt hands its leftover draws to the next one. */
  ghost function KeptDraws(ins: Instance, s0: Solution, order: seq<int>, rnd: seq<nat>, fuel: nat): seq<nat>
    requires WellFormed(ins) && Shaped(ins, s0) && forall v :: v in order ==> v in ins.realVertices
    decreases fuel
  {
    if fuel <= 1 then rnd
    else
      var a := RandomAttempt(ins, s0, order, rnd);
      if a.0 then KeptDraws(ins, s0, order, a.2, fuel - 1) else rnd
  }

  /** getScore on a solution that carries no score yields its true number
      of crossings. */
  lemma ScoredCounts(ins: Instance, s: Solution)
    requires WellFormed(ins) && Shaped(ins, s) && s.objective == IntMax
    ensures GetScore(ins, s).0.objective == CrossingsOf(ins, GetScore(ins, s).0)
  {
    RecountProofs.CountOntoCorrect(ins, s, s.cuts);
    assert Positions(ins, s) == Positions(ins, GetScore(ins, s).0);
  }

  /** What construct returns is the scored embedding of a successful
      attempt; it gives up only when every allowed attempt failed. */
  lemma {:induction false} RandomConstructKeeps(ins: Instance, s0: Solution, order: seq<int>, rnd: seq<nat>, fuel: nat)
    requires WellFormed(ins) && Shaped(ins, s0) && forall v :: v in order ==> v in ins.realVertices
    ensures var r := RandomConstruct(ins, s0, order, rnd, fuel);
      var a := RandomAttempt(ins, s0, order, KeptDraws(ins, s0, order, rnd, fuel));
      && (r.Constructed? <==> fuel > 0 && !a.0)
      && (r.Constructed? ==> r.s == GetScore(ins, a.1.s).0)
    decreases fuel
  {
    if fuel > 1 {
      var a := RandomAttempt(ins, s0, order, rnd);
      if a.0 {
        assert KeptDraws(ins, s0, order, rnd, fuel) == KeptDraws(ins, s0, order, a.2, fuel - 1);
        assert RandomConstruct(ins, s0, order, rnd, fuel) == RandomConstruct(ins, s0, order, a.2, fuel - 1);
        RandomConstructKeeps(ins, s0, order, a.2, fuel - 1);
      }
    }
  }

  /** construct on a start solution that carries no score returns the
      embedding of a successful attempt together with its true number of
      crossings. */
  lemma RandomConstructCounts(ins: Instance, s0: Solution, order: seq<int>, rnd: seq<nat>, fuel: nat)
    requires WellFormed(ins) && Shaped(ins, s0) && forall v :: v in order ==> v in ins.realVertices
    requires s0.objective == IntMax
    ensures var r := RandomConstruct(ins, s0, order, rnd, fuel);
      var a := RandomAttempt(ins, s0, order, KeptDraws(ins, s0, order, rnd, fuel));
      r.Constructed? ==> !a.0 && r.s.input == a.1.s.input && r.s.objective == CrossingsOf(ins, r.s)
  {
    RandomConstructKeeps(ins, s0, order, rnd, fuel);
    var a := RandomAttempt(ins, s0, order, KeptDraws(ins, s0, order, rnd, fuel));
    RandomAttemptKeepsScore(ins, s0, order, KeptDraws(ins, s0, order, rnd, fuel));
    ScoredCounts(ins, a.1.s);
  }
}
