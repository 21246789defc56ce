/** One run of the GRASP constructor (constructSolution): the long edges
    are placed first, each whole chain in one column, then the real
    vertices that are still unplaced, one cell each. A phase stops at the
    first item that finds no candidate column. */
module GraspPhases {
  import opened GraphModel
  import opened Solutions
  import opened CrossingRule
  import opened TabuMemories
  import opened GraspState
  import opened GraspRules
  import opened GraspOrder

  /** What a run hands back: whether every item found a column, the build,
      the tabu memory (updated even by a failed run) and the unused draws. */
  datatype Outcome = Outcome(ok: bool, b: Build, t: TabuMemory, rnd: seq<nat>)

  /** The shape of a build the column rules can read. */
  ghost predicate Ready(ins: Instance, b: Build)
  {
    Sized(ins, b) && InGrid(ins, b) && SourcesKnown(b.edges, ins.layerOf)
  }

  /** With a tabu criterion, the memory keeps a queue and a set for every
      long edge. */
  predicate TabuReady(cfg: GraspConfig, t: TabuMemory, les: seq<Edge>)
  {
    UsesTabu(cfg) ==> forall le :: le in les ==> Tracked(t, le)
  }

  /** Every entry of the list occurs once. */
  ghost predicate Once<T(!new)>(xs: seq<T>)
  {
    forall u :: multiset(xs)[u] <= 1
  }

  /** The head of a list without repetitions is not in its tail, which has
      no repetitions either. */
  lemma OnceTail<T(!new)>(xs: seq<T>)
    requires |xs| > 0 && Once(xs)
    ensures xs[0] !in xs[1..] && Once(xs[1..])
  {
    assert xs == [xs[0]] + xs[1..];
    assert multiset(xs) == multiset{xs[0]} + multiset(xs[1..]);
    assert multiset(xs)[xs[0]] <= 1;
    forall u ensures multiset(xs[1..])[u] <= 1 {
      assert multiset(xs)[u] <= 1;
    }
  }

  /** Pairwise different entries occur once each. */
  lemma {:induction false} DistinctOnce<T(!new)>(xs: seq<T>)
    requires forall i, j :: 0 <= i < j < |xs| ==> xs[i] != xs[j]
    ensures Once(xs)
    decreases |xs|
  {
    if |xs| > 0 {
      var t := xs[1..];
      forall i, j | 0 <= i < j < |t| ensures t[i] != t[j] {
        assert t[i] == xs[i + 1] && t[j] == xs[j + 1];
      }
      DistinctOnce(t);
      assert xs[0] !in t by {
        forall j | 0 <= j < |t| ensures t[j] != xs[0] {
          assert t[j] == xs[j + 1];
        }
      }
      assert xs == [xs[0]] + t;
      assert multiset(xs) == multiset{xs[0]} + multiset(t);
    }
  }

  // ---------------------------------------------------------------------
  // addLongEdges

  /** The body of the addLongEdges loop for the long edge le: no candidate
      column ends the phase; otherwise le goes to a column drawn from its
      candidates, and with a tabu criterion that column is recorded for le. */
  function LongEdgeStep(ins: Instance, cfg: GraspConfig, b: Build, t: TabuMemory, le: Edge, rnd: seq<nat>): (r: Outcome)
    requires Ready(ins, b) && TabuReady(cfg, t, ins.longEdges) && le in ins.longEdges
    ensures Ready(ins, r.b) && TabuReady(cfg, r.t, ins.longEdges)
    ensures !r.ok ==> r.b == b
  {
    var cands := LongEdgeCandidates(ins, cfg, b, t, le);
    if |cands| == 0 then Outcome(false, b, t, rnd)
    else
      var pick := PickRandom(cands, rnd);
      var pos := pick.0;
      AddLongEdgeInGrid(ins, b, le, pos);
      var t1 := if UsesTabu(cfg) then UpdateTabuList(t, le, pos) else t;
      Outcome(true, AddLongEdge(ins, b, le, pos), t1, pick.1)
  }

  /** The list after its head is placed: the tail, re-sorted by the updated
      McAllister scores when that criterion is configured. */
  function LongEdgesAfter(ins: Instance, sel: LongEdgeSelection, rest: seq<Edge>, m: map<Edge, real>): (r: (seq<Edge>, map<Edge, real>))
    requires |rest| > 0
    requires forall k :: k in m ==> k.source in ins.adjacency && k.target in ins.adjacency
    ensures multiset(r.0) == multiset(rest[1..]) && |r.0| == |rest| - 1
    ensures forall k :: k in r.0 ==> k in rest[1..]
    ensures forall k :: k in r.1 ==> k in m
  {
    var next := if sel == LeMcAllister then NextLongEdges(ins, rest[1..], m, rest[0]) else (rest[1..], m);
    assert forall k :: k in next.0 ==> k in multiset(rest[1..]);
    next
  }

  /** The loop of addLongEdges over the remaining long edges. */
  function AddLongEdges(ins: Instance, cfg: GraspConfig, b: Build, t: TabuMemory, rest: seq<Edge>, m: map<Edge, real>, rnd: seq<nat>): (r: Outcome)
    requires Ready(ins, b) && TabuReady(cfg, t, ins.longEdges)
    requires forall le :: le in rest ==> le in ins.longEdges
    requires forall k :: k in m ==> k.source in ins.adjacency && k.target in ins.adjacency
    ensures Ready(ins, r.b) && TabuReady(cfg, r.t, ins.longEdges)
    decreases |rest|
  {
    if |rest| == 0 then Outcome(true, b, t, rnd)
    else
      var step := LongEdgeStep(ins, cfg, b, t, rest[0], rnd);
      if !step.ok then step
      else
        var next := LongEdgesAfter(ins, cfg.leSelection, rest, m);
        AddLongEdges(ins, cfg, step.b, step.t, next.0, next.1, step.rnd)
  }

  // ---------------------------------------------------------------------
  // addRemainingVertices

  /** The body of the addRemainingVertices loop for the vertex v: its
      candidate columns are computed (the crossing rules record v's edges
      to placed vertices first); no candidate ends the phase, otherwise v
      goes to a column drawn from them. */
  function VertexStep(ins: Instance, cfg: GraspConfig, b: Build, v: int, rnd: seq<nat>): (r: (bool, Build, seq<nat>))
    requires Ready(ins, b) && 0 <= v < ins.totalNumVertices
    ensures Ready(ins, r.1)
    ensures r.1.added == if r.0 then b.added + {v} else b.added
  {
    var hc := HostCandidates(ins, cfg, b, v);
    var b0 := b.(edges := hc.1);
    assert InGrid(ins, b0);
    if |hc.0| == 0 then (false, b0, rnd)
    else
      var pick := PickRandom(hc.0, rnd);
      AddVertexInGrid(ins, b0, v, pick.0);
      (true, AddVertex(ins, b0, v, pick.0), pick.1)
  }

  /** The list after its head is placed: the tail, re-sorted by the updated
      McAllister scores when that criterion is configured. */
  function VerticesAfter(ins: Instance, sel: VertexSelection, rest: seq<int>, m: map<int, real>): (r: (seq<int>, map<int, real>))
    requires |rest| > 0
    requires forall k :: k in m ==> k in ins.adjacency
    ensures multiset(r.0) == multiset(rest[1..]) && |r.0| == |rest| - 1
    ensures forall k :: k in r.0 ==> k in rest[1..]
    ensures forall k :: k in r.1 ==> k in m
  {
    var next := if sel == VsMcAllister then NextVertices(ins, rest[1..], m, rest[0]) else (rest[1..], m);
    assert forall k :: k in next.0 ==> k in multiset(rest[1..]);
    next
  }

  /** The loop of addRemainingVertices over the remaining vertices. */
  function AddVertices(ins: Instance, cfg: GraspConfig, b: Build, rest: seq<int>, m: map<int, real>, rnd: seq<nat>): (r: (bool, Build, seq<nat>))
    requires Ready(ins, b)
    requires forall v :: v in rest ==> 0 <= v < ins.totalNumVertices
    requires forall k :: k in m ==> k in ins.adjacency
    ensures Ready(ins, r.1)
    decreases |rest|
  {
    if |rest| == 0 then (true, b, rnd)
    else
      assert rest[0] in rest;
      var step := VertexStep(ins, cfg, b, rest[0], rnd);
      if !step.0 then step
      else
        var next := VerticesAfter(ins, cfg.selection, rest, m);
        assert Ready(ins, step.1);
        assert forall v :: v in next.0 ==> v in rest;
        assert forall v :: v in next.0 ==> 0 <= v < ins.totalNumVertices;
        assert forall k :: k in next.1 ==> k in ins.adjacency;
        assert |next.0| < |rest|;
        AddVertices(ins, cfg, step.1, next.0, next.1, step.2)
  }

  // ---------------------------------------------------------------------
  // constructSolution

  /** Every real vertex is a vertex and has adjacency lists. */
  lemma RealVerticesKnown(ins: Instance, order: seq<int>)
    requires WellFormed(ins) && forall v :: v in order ==> v in ins.realVertices
    ensures forall v :: v in order ==> 0 <= v < ins.totalNumVertices && v in ins.adjacency
  {
    assert PartitionWellFormed(ins) && AdjacencyWellFormed(ins);
  }

  /** The first phase of constructSolution: an empty grid, then the long
      edges in their configured order. */
  function LongEdgePhase(ins: Instance, cfg: GraspConfig, s0: Solution, t: TabuMemory, rnd: seq<nat>): (r: Outcome)
    requires WellFormed(ins) && Shaped(ins, s0) && TabuReady(cfg, t, ins.longEdges)
    ensures Ready(ins, r.b) && TabuReady(cfg, r.t, ins.longEdges)
  {
    var b0 := NewBuild(ins, s0);
    assert Ready(ins, b0);
    LongEdgesKnown(ins);
    var les := LongEdgeOrder(ins, cfg, rnd);
    LongEdgesStart(ins, les.0);
    AddLongEdges(ins, cfg, b0, t, les.0, les.1, les.2)
  }

  /** The ordered remaining vertices and the score map are known vertices. */
  lemma VertexOrderKnown(ins: Instance, cfg: GraspConfig, added: set<int>, rem: seq<int>, rnd: seq<nat>)
    requires forall v :: v in rem ==> 0 <= v < ins.totalNumVertices && v in ins.adjacency
    ensures forall k :: k in VertexOrder(ins, cfg, added, rem, rnd).0 ==> 0 <= k < ins.totalNumVertices
    ensures forall k :: k in VertexOrder(ins, cfg, added, rem, rnd).1 ==> k in ins.adjacency
  {
    var vs := VertexOrder(ins, cfg, added, rem, rnd);
    forall k | k in vs.0 ensures 0 <= k < ins.totalNumVertices {
      assert k in multiset(vs.0);
      assert k in rem;
    }
  }

  /** The second phase of constructSolution: the real vertices of `order`
      that the first phase left unplaced, in their configured order. */
  function VertexPhase(ins: Instance, cfg: GraspConfig, b: Build, order: seq<int>, rnd: seq<nat>): (r: (bool, Build, seq<nat>))
    requires WellFormed(ins) && Ready(ins, b)
    requires forall v :: v in order ==> v in ins.realVertices
    ensures Ready(ins, r.1)
  {
    RealVerticesKnown(ins, order);
    var rem := Unplaced(order, b.added);
    var vs := VertexOrder(ins, cfg, b.added, rem, rnd);
    VertexOrderKnown(ins, cfg, b.added, rem, rnd);
    AddVertices(ins, cfg, b, vs.0, vs.1, vs.2)
  }

  /** constructSolution on a copy s0 of the start solution: an empty grid,
      the long edges in their configured order, then the real vertices of
      `order` (the iteration order of the instance's real-vertex set) that
      are still unplaced, in their configured order. */
  function ConstructSolution(ins: Instance, cfg: GraspConfig, s0: Solution, t: TabuMemory, order: seq<int>, rnd: seq<nat>): (r: Outcome)
    requires WellFormed(ins) && Shaped(ins, s0) && TabuReady(cfg, t, ins.longEdges)
    requires forall v :: v in order ==> v in ins.realVertices
    ensures Ready(ins, r.b) && TabuReady(cfg, r.t, ins.longEdges)
  {
    var o := LongEdgePhase(ins, cfg, s0, t, rnd);
    if !o.ok then o
    else
      var placed := VertexPhase(ins, cfg, o.b, order, o.rnd);
      Outcome(placed.0, placed.1, o.t, placed.2)
  }

  // ---------------------------------------------------------------------
  // What a successful run places

  /** Two different long edges share no chain vertex. */
  lemma ChainsDisjoint(ins: Instance, a: Edge, c: Edge)
    requires WellFormed(ins) && a in ins.longEdges && c in ins.longEdges && a != c
    ensures a in ins.chains && c in ins.chains
    ensures ChainVertices(ins, a) !! ChainVertices(ins, c)
  {
    assert ChainsWellFormed(ins);
    var i :| 0 <= i < |ins.longEdges| && ins.longEdges[i] == a;
    var j :| 0 <= j < |ins.longEdges| && ins.longEdges[j] == c;
    if i < j {
      assert ChainVertices(ins, ins.longEdges[i]) !! ChainVertices(ins, ins.longEdges[j]);
    } else {
      assert ChainVertices(ins, ins.longEdges[j]) !! ChainVertices(ins, ins.longEdges[i]);
    }
  }

  /** A long edge whose chain is still unplaced and finds a column is
      placed whole in that column, and the grid stays consistent. */
  lemma LongEdgeStepPlaces(ins: Instance, cfg: GraspConfig, b: Build, t: TabuMemory, le: Edge, rnd: seq<nat>)
    requires WellFormed(ins) && Ready(ins, b) && Occupancy(ins, b) && TabuReady(cfg, t, ins.longEdges)
    requires le in ins.longEdges && le in ins.chains && ChainVertices(ins, le) !! b.added
    ensures LongEdgeStep(ins, cfg, b, t, le, rnd).ok ==>
      && Occupancy(ins, LongEdgeStep(ins, cfg, b, t, le, rnd).b)
      && LongEdgeStep(ins, cfg, b, t, le, rnd).b.added == b.added + ChainVertices(ins, le)
  {
    var cands := LongEdgeCandidates(ins, cfg, b, t, le);
    if |cands| > 0 {
      var pos := PickRandom(cands, rnd).0;
      assert Fits(ins, b, le, pos);
      AddLongEdgeOccupancy(ins, b, le, pos);
      AddLongEdgePlaces(ins, b, le, pos);
    }
  }

  /** After the head long edge is placed, the reordered tail again lists
      distinct unplaced long edges, and every other long edge is placed. */
  lemma LongEdgesLeft(ins: Instance, rest: seq<Edge>, next: seq<Edge>, added: set<int>, added1: set<int>)
    requires WellFormed(ins) && |rest| > 0 && Once(rest)
    requires forall le :: le in rest ==> le in ins.longEdges
    requires forall le :: le in rest ==> le in ins.chains && ChainVertices(ins, le) !! added
    requires forall le :: le in ins.longEdges && le !in rest ==> le in ins.chains && ChainVertices(ins, le) <= added
    requires multiset(next) == multiset(rest[1..])
    requires rest[0] in ins.chains && added1 == added + ChainVertices(ins, rest[0])
    ensures Once(next) && forall le :: le in next ==> le in ins.longEdges
    ensures forall le :: le in next ==> le in ins.chains && ChainVertices(ins, le) !! added1
    ensures forall le :: le in ins.longEdges && le !in next ==> le in ins.chains && ChainVertices(ins, le) <= added1
  {
    var le := rest[0];
    OnceTail(rest);
    assert rest == [le] + rest[1..];
    forall k | k in next
      ensures k in ins.longEdges && k in ins.chains && ChainVertices(ins, k) !! added1
    {
      assert k in multiset(rest[1..]);
      assert k in rest[1..] && k in rest && k != le;
      ChainsDisjoint(ins, le, k);
    }
    forall k | k in ins.longEdges && k !in next
      ensures k in ins.chains && ChainVertices(ins, k) <= added1
    {
      assert k !in multiset(rest[1..]);
      assert k == le || k !in rest;
    }
  }

  /** After the head vertex is placed, the reordered tail lists distinct
      vertices of the old tail, and the old list is the head and the new
      one. */
  lemma VerticesLeft(rest: seq<int>, next: seq<int>)
    requires |rest| > 0 && Once(rest)
    requires multiset(next) == multiset(rest[1..])
    ensures Once(next)
    ensures forall k :: k in next ==> k in rest && k != rest[0]
    ensures forall k :: k in rest ==> k == rest[0] || k in next
  {
    OnceTail(rest);
    assert rest == [rest[0]] + rest[1..];
    forall k | k in next ensures k in rest && k != rest[0] {
      assert k in multiset(rest[1..]);
      assert k in rest[1..];
    }
    forall k | k in rest && k != rest[0] ensures k in next {
      assert k in rest[1..];
      assert k in multiset(next);
    }
  }

  /** addLongEdges, when no long edge is left without a column, places the
      chain of every long edge, each in one column and each cell once. The
      long edges still to come are distinct and unplaced; the others are
      placed already. */
  lemma {:induction false} AddLongEdgesPlaces(ins: Instance, cfg: GraspConfig, b: Build, t: TabuMemory, rest: seq<Edge>, m: map<Edge, real>, rnd: seq<nat>)
    requires WellFormed(ins) && Ready(ins, b) && Occupancy(ins, b) && TabuReady(cfg, t, ins.longEdges)
    requires forall le :: le in rest ==> le in ins.longEdges
    requires forall k :: k in m ==> k.source in ins.adjacency && k.target in ins.adjacency
    requires Once(rest)
    requires forall le :: le in rest ==> le in ins.chains && ChainVertices(ins, le) !! b.added
    requires forall le :: le in ins.longEdges && le !in rest ==> le in ins.chains && ChainVertices(ins, le) <= b.added
    ensures b.added <= AddLongEdges(ins, cfg, b, t, rest, m, rnd).b.added
    ensures AddLongEdges(ins, cfg, b, t, rest, m, rnd).ok ==>
      && Occupancy(ins, AddLongEdges(ins, cfg, b, t, rest, m, rnd).b)
      && forall le :: le in ins.longEdges ==> le in ins.chains && ChainVertices(ins, le) <= AddLongEdges(ins, cfg, b, t, rest, m, rnd).b.added
    decreases |rest|
  {
    if |rest| > 0 {
      var le := rest[0];
      assert le in rest;
      var step := LongEdgeStep(ins, cfg, b, t, le, rnd);
      LongEdgeStepPlaces(ins, cfg, b, t, le, rnd);
      if step.ok {
        var next := LongEdgesAfter(ins, cfg.leSelection, rest, m);
        LongEdgesLeft(ins, rest, next.0, b.added, step.b.added);
        AddLongEdgesPlaces(ins, cfg, step.b, step.t, next.0, next.1, step.rnd);
      }
    }
  }

  /** Replacing the edge lists by other lists sorted by layer keeps the
      grid consistent: the invariant reads the lists only through that. */
  lemma WithEdgesOccupancy(ins: Instance, b: Build, edges: seq<seq<Edge>>)
    requires Sized(ins, b) && Occupancy(ins, b)
    requires |edges| == ins.numberOfLayers && SourcesKnown(edges, ins.layerOf)
    ensures Sized(ins, b.(edges := edges)) && Occupancy(ins, b.(edges := edges))
  {
    var b0 := b.(edges := edges);
    assert Sized(ins, b0);
    forall v | v in b0.added ensures 0 <= v < ins.totalNumVertices && Holds(ins, b0, v) {
      assert Holds(ins, b, v);
    }
    forall l, c | 0 <= l < ins.numberOfLayers && 0 <= c < Width(ins) && b0.used[l][c] ensures Occupied(ins, b0, l, c) {
      assert Occupied(ins, b, l, c);
    }
  }

  /** An unplaced vertex that finds a column is placed in it, and the grid
      stays consistent whether or not it finds one. */
  lemma VertexStepPlaces(ins: Instance, cfg: GraspConfig, b: Build, v: int, rnd: seq<nat>)
    requires Ready(ins, b) && Occupancy(ins, b) && 0 <= v < ins.totalNumVertices && v !in b.added
    ensures Occupancy(ins, VertexStep(ins, cfg, b, v, rnd).1)
  {
    var hc := HostCandidates(ins, cfg, b, v);
    WithEdgesOccupancy(ins, b, hc.1);
    var b0 := b.(edges := hc.1);
    if |hc.0| > 0 {
      var pos := PickRandom(hc.0, rnd).0;
      assert !b0.used[ins.layerOf[v]][pos];
      AddVertexOccupancy(ins, b0, v, pos);
    }
  }

  /** addRemainingVertices keeps the grid consistent, places nothing but
      the listed vertices, and, when every vertex finds a column, places
      all of them. */
  lemma {:induction false} AddVerticesPlaces(ins: Instance, cfg: GraspConfig, b: Build, rest: seq<int>, m: map<int, real>, rnd: seq<nat>)
    requires Ready(ins, b) && Occupancy(ins, b)
    requires forall v :: v in rest ==> 0 <= v < ins.totalNumVertices && v !in b.added
    requires forall k :: k in m ==> k in ins.adjacency
    requires Once(rest)
    ensures Occupancy(ins, AddVertices(ins, cfg, b, rest, m, rnd).1)
    ensures b.added <= AddVertices(ins, cfg, b, rest, m, rnd).1.added
    ensures forall v :: v in AddVertices(ins, cfg, b, rest, m, rnd).1.added ==> v in b.added || v in rest
    ensures AddVertices(ins, cfg, b, rest, m, rnd).0 ==> forall v :: v in rest ==> v in AddVertices(ins, cfg, b, rest, m, rnd).1.added
    decreases |rest|
  {
    if |rest| > 0 {
      var v := rest[0];
      assert v in rest;
      var step := VertexStep(ins, cfg, b, v, rnd);
      VertexStepPlaces(ins, cfg, b, v, rnd);
      if step.0 {
        var next := VerticesAfter(ins, cfg.selection, rest, m);
        VerticesLeft(rest, next.0);
        AddVerticesPlaces(ins, cfg, step.1, next.0, next.1, step.2);
      }
    }
  }

  /** A run that ends with ok has placed the chain of every long edge and
      every real vertex of `order`, each cell once. */
  lemma ConstructSolutionPlaces(ins: Instance, cfg: GraspConfig, s0: Solution, t: TabuMemory, order: seq<int>, rnd: seq<nat>)
    requires WellFormed(ins) && Shaped(ins, s0) && TabuReady(cfg, t, ins.longEdges)
    requires NoRepeats(order) && forall v :: v in order ==> v in ins.realVertices
    ensures ConstructSolution(ins, cfg, s0, t, order, rnd).ok ==>
      && Occupancy(ins, ConstructSolution(ins, cfg, s0, t, order, rnd).b)
      && (forall v :: v in order ==> v in ConstructSolution(ins, cfg, s0, t, order, rnd).b.added)
      && (forall le :: le in ins.longEdges ==> le in ins.chains && ChainVertices(ins, le) <= ConstructSolution(ins, cfg, s0, t, order, rnd).b.added)
  {
    LongEdgePhasePlaces(ins, cfg, s0, t, rnd);
    var o := LongEdgePhase(ins, cfg, s0, t, rnd);
    if o.ok {
      VertexPhasePlaces(ins, cfg, o.b, order, o.rnd);
    }
  }

  /** Any ordering of the instance's long edges lists each once, and every
      long edge has a chain. */
  lemma LongEdgesStart(ins: Instance, les: seq<Edge>)
    requires WellFormed(ins) && multiset(les) == multiset(ins.longEdges)
    ensures Once(les)
    ensures forall le :: le in les <==> le in ins.longEdges
    ensures forall le :: le in ins.longEdges ==> le in ins.chains
  {
    assert ChainsWellFormed(ins);
    DistinctOnce(ins.longEdges);
    assert forall k :: k in les <==> k in multiset(ins.longEdges);
    forall le | le in ins.longEdges ensures le in ins.chains {
      ChainShapeOf(ins, le);
    }
  }

  /** The long-edge phase of a successful run places every chain. */
  lemma LongEdgePhasePlaces(ins: Instance, cfg: GraspConfig, s0: Solution, t: TabuMemory, rnd: seq<nat>)
    requires WellFormed(ins) && Shaped(ins, s0) && TabuReady(cfg, t, ins.longEdges)
    ensures LongEdgePhase(ins, cfg, s0, t, rnd).ok ==>
      && Occupancy(ins, LongEdgePhase(ins, cfg, s0, t, rnd).b)
      && forall le :: le in ins.longEdges ==> le in ins.chains && ChainVertices(ins, le) <= LongEdgePhase(ins, cfg, s0, t, rnd).b.added
  {
    var b0 := NewBuild(ins, s0);
    NewBuildOccupancy(ins, s0);
    LongEdgesKnown(ins);
    var les := LongEdgeOrder(ins, cfg, rnd);
    LongEdgesStart(ins, les.0);
    AddLongEdgesPlaces(ins, cfg, b0, t, les.0, les.1, les.2);
  }

  /** The vertex phase keeps the grid consistent and, when it succeeds,
      has placed every vertex of `order`. */
  lemma VertexPhasePlaces(ins: Instance, cfg: GraspConfig, b: Build, order: seq<int>, rnd: seq<nat>)
    requires WellFormed(ins) && Ready(ins, b) && Occupancy(ins, b)
    requires NoRepeats(order) && forall v :: v in order ==> v in ins.realVertices
    ensures Occupancy(ins, VertexPhase(ins, cfg, b, order, rnd).1)
    ensures b.added <= VertexPhase(ins, cfg, b, order, rnd).1.added
    ensures VertexPhase(ins, cfg, b, order, rnd).0 ==> forall v :: v in order ==> v in VertexPhase(ins, cfg, b, order, rnd).1.added
  {
    RealVerticesKnown(ins, order);
    var rem := Unplaced(order, b.added);
    var vs := VertexOrder(ins, cfg, b.added, rem, rnd);
    NoRepeatsCount(rem);
    assert Once(vs.0) by {
      assert multiset(vs.0) == multiset(rem);
    }
    assert forall k :: k in vs.0 <==> k in multiset(rem);
    AddVerticesPlaces(ins, cfg, b, vs.0, vs.1, vs.2);
  }

  // ---------------------------------------------------------------------
  // The cached score survives a run

  /** One step of either phase keeps the cached score and the crossing
      matrix of the solution being built. */
  lemma LongEdgeStepKeepsScore(ins: Instance, cfg: GraspConfig, b: Build, t: TabuMemory, le: Edge, rnd: seq<nat>)
    requires Ready(ins, b) && TabuReady(cfg, t, ins.longEdges) && le in ins.longEdges
    ensures LongEdgeStep(ins, cfg, b, t, le, rnd).b.s.objective == b.s.objective
    ensures LongEdgeStep(ins, cfg, b, t, le, rnd).b.s.cuts == b.s.cuts
  {
    var cands := LongEdgeCandidates(ins, cfg, b, t, le);
    if |cands| > 0 {
      AddLongEdgeKeepsScore(ins, b, le, PickRandom(cands, rnd).0);
    }
  }

  lemma {:induction false} AddLongEdgesKeepsScore(ins: Instance, cfg: GraspConfig, b: Build, t: TabuMemory, rest: seq<Edge>, m: map<Edge, real>, rnd: seq<nat>)
    requires Ready(ins, b) && TabuReady(cfg, t, ins.longEdges)
    requires forall le :: le in rest ==> le in ins.longEdges
    requires forall k :: k in m ==> k.source in ins.adjacency && k.target in ins.adjacency
    ensures AddLongEdges(ins, cfg, b, t, rest, m, rnd).b.s.objective == b.s.objective
    ensures AddLongEdges(ins, cfg, b, t, rest, m, rnd).b.s.cuts == b.s.cuts
    decreases |rest|
  {
    if |rest| > 0 {
      assert rest[0] in rest;
      var step := LongEdgeStep(ins, cfg, b, t, rest[0], rnd);
      LongEdgeStepKeepsScore(ins, cfg, b, t, rest[0], rnd);
      if step.ok {
        var next := LongEdgesAfter(ins, cfg.leSelection, rest, m);
        assert forall k :: k in next.0 ==> k in rest;
        AddLongEdgesKeepsScore(ins, cfg, step.b, step.t, next.0, next.1, step.rnd);
      }
    }
  }

  lemma {:induction false} AddVerticesKeepsScore(ins: Instance, cfg: GraspConfig, b: Build, rest: seq<int>, m: map<int, real>, rnd: seq<nat>)
    requires Ready(ins, b)
    requires forall v :: v in rest ==> 0 <= v < ins.totalNumVertices
    requires forall k :: k in m ==> k in ins.adjacency
    ensures AddVertices(ins, cfg, b, rest, m, rnd).1.s.objective == b.s.objective
    ensures AddVertices(ins, cfg, b, rest, m, rnd).1.s.cuts == b.s.cuts
    decreases |rest|
  {
    if |rest| > 0 {
      assert rest[0] in rest;
      var step := VertexStep(ins, cfg, b, rest[0], rnd);
      if step.0 {
        var next := VerticesAfter(ins, cfg.selection, rest, m);
        assert forall k :: k in next.0 ==> k in rest;
        AddVerticesKeepsScore(ins, cfg, step.1, next.0, next.1, step.2);
      }
    }
  }

  lemma LongEdgePhaseKeepsScore(ins: Instance, cfg: GraspConfig, s0: Solution, t: TabuMemory, rnd: seq<nat>)
    requires WellFormed(ins) && Shaped(ins, s0) && TabuReady(cfg, t, ins.longEdges)
    ensures LongEdgePhase(ins, cfg, s0, t, rnd).b.s.objective == s0.objective
    ensures LongEdgePhase(ins, cfg, s0, t, rnd).b.s.cuts == s0.cuts
  {
    var b0 := NewBuild(ins, s0);
    assert Ready(ins, b0);
    LongEdgesKnown(ins);
    var les := LongEdgeOrder(ins, cfg, rnd);
    LongEdgesStart(ins, les.0);
    AddLongEdgesKeepsScore(ins, cfg, b0, t, les.0, les.1, les.2);
  }

  lemma VertexPhaseKeepsScore(ins: Instance, cfg: GraspConfig, b: Build, order: seq<int>, rnd: seq<nat>)
    requires WellFormed(ins) && Ready(ins, b)
    requires forall v :: v in order ==> v in ins.realVertices
    ensures VertexPhase(ins, cfg, b, order, rnd).1.s.objective == b.s.objective
    ensures VertexPhase(ins, cfg, b, order, rnd).1.s.cuts == b.s.cuts
  {
    RealVerticesKnown(ins, order);
    var rem := Unplaced(order, b.added);
    var vs := VertexOrder(ins, cfg, b.added, rem, rnd);
    VertexOrderKnown(ins, cfg, b.added, rem, rnd);
    AddVerticesKeepsScore(ins, cfg, b, vs.0, vs.1, vs.2);
  }

  /** constructSolution leaves the copy's cached score and crossing matrix
      as they were: only the embedding changes. */
  lemma ConstructSolutionKeepsScore(ins: Instance, cfg: GraspConfig, s0: Solution, t: TabuMemory, order: seq<int>, rnd: seq<nat>)
    requires WellFormed(ins) && Shaped(ins, s0) && TabuReady(cfg, t, ins.longEdges)
    requires forall v :: v in order ==> v in ins.realVertices
    ensures ConstructSolution(ins, cfg, s0, t, order, rnd).b.s.objective == s0.objective
    ensures ConstructSolution(ins, cfg, s0, t, order, rnd).b.s.cuts == s0.cuts
  {
    LongEdgePhaseKeepsScore(ins, cfg, s0, t, rnd);
    var o := LongEdgePhase(ins, cfg, s0, t, rnd);
    if o.ok {
      VertexPhaseKeepsScore(ins, cfg, o.b, order, o.rnd);
    }
  }
}
