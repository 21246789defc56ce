/** The state the GRASP constructor (GDConstructiveEvent) threads through
    one construction: the solution being filled in, the grid of used cells
    (used[layer][column]), the set of vertices placed so far (addedVertices)
    and the placed edges listed by the layer of their source (addedEdges).
    addVertex and addLongEdge are the only operations that place vertices;
    the invariant Occupancy says the grid, the set and the solution agree. */
module GraspState {
  import opened GraphModel
  import opened Solutions
  import opened CrossingRule

  datatype Build = Build(s: Solution, used: seq<seq<bool>>, added: set<int>, edges: seq<seq<Edge>>)

  /** The arrays have the sizes the instance dictates. */
  ghost predicate Sized(ins: Instance, b: Build)
  {
    && WellFormed(ins)
    && Shaped(ins, b.s)
    && |b.used| == ins.numberOfLayers
    && |b.edges| == ins.numberOfLayers
    && forall l :: 0 <= l < |b.used| ==> |b.used[l]| == Width(ins)
  }

  /** constructSolution's start: nothing used, nothing added, an empty edge
      list per layer. */
  function NewBuild(ins: Instance, s0: Solution): (b: Build)
    requires WellFormed(ins) && Shaped(ins, s0)
    ensures Sized(ins, b) && b.s == s0 && b.added == {}
    ensures forall l, c :: 0 <= l < |b.used| && 0 <= c < |b.used[l]| ==> !b.used[l][c]
    ensures forall l :: 0 <= l < |b.edges| ==> b.edges[l] == []
  {
    Build(s0, seq(ins.numberOfLayers, _ => seq(Width(ins), _ => false)), {}, seq(ins.numberOfLayers, _ => []))
  }

  /** v sits in a used cell of its own layer, and that cell holds v. */
  ghost predicate Holds(ins: Instance, b: Build, v: int)
    requires Sized(ins, b) && 0 <= v < ins.totalNumVertices
  {
    && 0 <= b.s.input[v] < ins.totalNumVertices
    && b.s.host[b.s.input[v]] == v
    && 0 <= PositionOf(ins, b.s, v) < Width(ins)
    && b.used[ins.layerOf[v]][PositionOf(ins, b.s, v)]
  }

  /** Every placed vertex is a vertex and sits in a column of the grid: the
      part of the invariant the placement rules read. */
  ghost predicate InGrid(ins: Instance, b: Build)
    requires Sized(ins, b)
  {
    forall v :: v in b.added ==> 0 <= v < ins.totalNumVertices && 0 <= PositionOf(ins, b.s, v) < Width(ins)
  }

  /** The cell (l, c) holds a placed vertex that points back at it. */
  ghost predicate Occupied(ins: Instance, b: Build, l: int, c: int)
    requires Sized(ins, b)
  {
    var k := HostVertex(ins, l, c);
    && 0 <= k < ins.totalNumVertices
    && b.s.host[k] in b.added
    && 0 <= b.s.host[k] < ins.totalNumVertices
    && b.s.input[b.s.host[k]] == k
  }

  /** The grid, the placed set and the solution agree: every placed vertex
      holds a used cell of its layer, every used cell holds a placed vertex,
      and every listed edge leaves a vertex. (Edges are recorded under the
      layer of their source, but the crossing rules, as written, also copy
      a layer's list into the list of the layer below.) */
  ghost predicate Occupancy(ins: Instance, b: Build)
    requires Sized(ins, b)
  {
    && (forall v :: v in b.added ==> 0 <= v < ins.totalNumVertices && Holds(ins, b, v))
    && (forall l, c :: 0 <= l < ins.numberOfLayers && 0 <= c < Width(ins) && b.used[l][c] ==> Occupied(ins, b, l, c))
    && SourcesKnown(b.edges, ins.layerOf)
  }

  /** A fresh build satisfies the invariant. */
  lemma NewBuildOccupancy(ins: Instance, s0: Solution)
    requires WellFormed(ins) && Shaped(ins, s0)
    ensures Occupancy(ins, NewBuild(ins, s0))
  {
    var b := NewBuild(ins, s0);
    forall l, c | 0 <= l < ins.numberOfLayers && 0 <= c < Width(ins) ensures !b.used[l][c] {
    }
  }

  /** Placed vertices sit in distinct slots: the cells of the grid are never
      shared. */
  lemma OccupancyInjective(ins: Instance, b: Build, u: int, v: int)
    requires Sized(ins, b) && Occupancy(ins, b)
    requires u in b.added && v in b.added && u != v
    ensures b.s.input[u] != b.s.input[v]
    ensures ins.layerOf[u] == ins.layerOf[v] ==> PositionOf(ins, b.s, u) != PositionOf(ins, b.s, v)
  {
    assert Holds(ins, b, u) && Holds(ins, b, v);
  }

  // ---------------------------------------------------------------------
  // addVertex

  /** addVertex(s, used, pos, v, addedVertices): v goes to column pos of its
      layer, the cell is marked used and v is added. */
  function AddVertex(ins: Instance, b: Build, v: int, pos: int): (r: Build)
    requires Sized(ins, b) && 0 <= v < ins.totalNumVertices && 0 <= pos < Width(ins)
    ensures Sized(ins, r) && r.edges == b.edges
    ensures r.added == b.added + {v}
    ensures 0 <= ins.layerOf[v] < ins.numberOfLayers && 0 <= HostVertex(ins, ins.layerOf[v], pos) < ins.totalNumVertices
    ensures PositionOf(ins, r.s, v) == pos && r.s.input[v] == HostVertex(ins, ins.layerOf[v], pos)
    ensures r.s.host[HostVertex(ins, ins.layerOf[v], pos)] == v
    ensures forall u :: 0 <= u < ins.totalNumVertices && u != v ==> r.s.input[u] == b.s.input[u]
    ensures forall k :: 0 <= k < ins.totalNumVertices && k != HostVertex(ins, ins.layerOf[v], pos) ==> r.s.host[k] == b.s.host[k]
    ensures forall l, c :: 0 <= l < ins.numberOfLayers && 0 <= c < Width(ins) ==>
      r.used[l][c] == (b.used[l][c] || (l == ins.layerOf[v] && c == pos))
  {
    var layer := ins.layerOf[v];
    SlotInRange(ins, layer, pos);
    Build(SetVertexPosition(ins, b.s, v, layer, pos), b.used[layer := b.used[layer][pos := true]], b.added + {v}, b.edges)
  }

  /** Placing a vertex in a column keeps every placed vertex in the grid. */
  lemma AddVertexInGrid(ins: Instance, b: Build, v: int, pos: int)
    requires Sized(ins, b) && InGrid(ins, b) && 0 <= v < ins.totalNumVertices && 0 <= pos < Width(ins)
    ensures InGrid(ins, AddVertex(ins, b, v, pos))
  {
  }

  /** The vertices placed before stay in their cells when v is put into a
      free one. */
  lemma AddVertexHolds(ins: Instance, b: Build, v: int, pos: int, u: int)
    requires Sized(ins, b) && Occupancy(ins, b)
    requires 0 <= v < ins.totalNumVertices && v !in b.added
    requires 0 <= pos < Width(ins) && !b.used[ins.layerOf[v]][pos]
    requires u in AddVertex(ins, b, v, pos).added
    ensures 0 <= u < ins.totalNumVertices && Holds(ins, AddVertex(ins, b, v, pos), u)
  {
    var W := Width(ins);
    var layer := ins.layerOf[v];
    if u != v {
      assert Holds(ins, b, u);
      var a := ins.layerOf[u];
      var x := PositionOf(ins, b.s, u);
      assert b.s.input[u] == x + a * W;
      if b.s.input[u] == HostVertex(ins, layer, pos) {
        assert W * a + x == W * layer + pos by {
          assert a * W == W * a;
        }
        SlotUnique(W, a, x, layer, pos);
        assert false;
      }
    }
  }

  /** Every used cell still holds a placed vertex when v is put into a
      free one. */
  lemma AddVertexOccupied(ins: Instance, b: Build, v: int, pos: int, l: int, c: int)
    requires Sized(ins, b) && Occupancy(ins, b)
    requires 0 <= v < ins.totalNumVertices && v !in b.added
    requires 0 <= pos < Width(ins) && !b.used[ins.layerOf[v]][pos]
    requires 0 <= l < ins.numberOfLayers && 0 <= c < Width(ins) && AddVertex(ins, b, v, pos).used[l][c]
    ensures Occupied(ins, AddVertex(ins, b, v, pos), l, c)
  {
    var r := AddVertex(ins, b, v, pos);
    var layer := ins.layerOf[v];
    if !(l == layer && c == pos) {
      assert Occupied(ins, b, l, c);
      var k := HostVertex(ins, l, c);
      if k == HostVertex(ins, layer, pos) {
        SlotUnique(Width(ins), l, c, layer, pos);
      }
      assert r.s.host[k] == b.s.host[k];
    }
  }

  /** A vertex that is not placed yet, put into a free cell, keeps the
      invariant: no occupied cell is overwritten. */
  lemma AddVertexOccupancy(ins: Instance, b: Build, v: int, pos: int)
    requires Sized(ins, b) && Occupancy(ins, b)
    requires 0 <= v < ins.totalNumVertices && v !in b.added
    requires 0 <= pos < Width(ins) && !b.used[ins.layerOf[v]][pos]
    ensures Occupancy(ins, AddVertex(ins, b, v, pos))
  {
    var r := AddVertex(ins, b, v, pos);
    forall u | u in r.added ensures 0 <= u < ins.totalNumVertices && Holds(ins, r, u) {
      AddVertexHolds(ins, b, v, pos, u);
    }
    forall l, c | 0 <= l < ins.numberOfLayers && 0 <= c < Width(ins) && r.used[l][c] ensures Occupied(ins, r, l, c) {
      AddVertexOccupied(ins, b, v, pos, l, c);
    }
  }

  // ---------------------------------------------------------------------
  // addLongEdge

  /** The chain's k-th edge leaves layer base + k, and its vertices exist. */
  ghost predicate ChainShape(ins: Instance, chain: seq<Edge>, base: int)
    requires |ins.layerOf| == ins.totalNumVertices
  {
    forall j :: 0 <= j < |chain| ==>
      && 0 <= chain[j].source < ins.totalNumVertices
      && 0 <= chain[j].target < ins.totalNumVertices
      && ins.layerOf[chain[j].source] == base + j
      && ins.layerOf[chain[j].target] == base + j + 1
  }

  /** Every long edge's chain has that shape, from the layer of its source. */
  lemma ChainShapeOf(ins: Instance, le: Edge)
    requires WellFormed(ins) && le in ins.longEdges
    ensures le in ins.chains && ChainWellFormed(ins, le)
    ensures ChainShape(ins, ins.chains[le], ins.layerOf[le.source])
  {
    assert ChainWellFormed(ins, le);
    var c := ins.chains[le];
    forall j | 0 <= j < |c| ensures 0 <= c[j].source < ins.totalNumVertices && ins.layerOf[c[j].source] == ins.layerOf[le.source] + j {
      if j > 0 {
        assert c[j - 1].target == c[j].source;
      }
    }
  }

  /** addedEdges.get(layer of e.source).add(e). */
  function RecordEdge(ins: Instance, b: Build, e: Edge): (r: Build)
    requires Sized(ins, b) && 0 <= e.source < ins.totalNumVertices
    ensures Sized(ins, r) && r.s == b.s && r.used == b.used && r.added == b.added
    ensures forall l :: 0 <= l < ins.numberOfLayers ==>
      forall f :: f in r.edges[l] <==> f in b.edges[l] || (f == e && ins.layerOf[e.source] == l)
    ensures SourcesKnown(b.edges, ins.layerOf) ==> SourcesKnown(r.edges, ins.layerOf)
    ensures ByLayer(b.edges, ins.layerOf) ==> ByLayer(r.edges, ins.layerOf)
  {
    var l := ins.layerOf[e.source];
    b.(edges := b.edges[l := b.edges[l] + [e]])
  }

  /** The loop of addLongEdge from chain edge k on: each target goes to
      column pos and the edge is listed under its source's layer. */
  function AddChain(ins: Instance, b: Build, chain: seq<Edge>, k: nat, pos: int): (r: Build)
    requires Sized(ins, b) && 0 <= pos < Width(ins)
    requires forall j :: 0 <= j < |chain| ==> 0 <= chain[j].source < ins.totalNumVertices && 0 <= chain[j].target < ins.totalNumVertices
    ensures Sized(ins, r)
    decreases |chain| - k
  {
    if k >= |chain| then b
    else AddChain(ins, RecordEdge(ins, AddVertex(ins, b, chain[k].target, pos), chain[k]), chain, k + 1, pos)
  }

  /** addLongEdge(s, used, pos, longEdge, addedVertices, addedEdges): the
      source, then every chain vertex, into column pos. */
  function AddLongEdge(ins: Instance, b: Build, le: Edge, pos: int): (r: Build)
    requires Sized(ins, b) && le in ins.longEdges && 0 <= pos < Width(ins)
    ensures Sized(ins, r)
  {
    ChainShapeOf(ins, le);
    AddChain(ins, AddVertex(ins, b, le.source, pos), ins.chains[le], 0, pos)
  }

  /** The loop of addLongEdge keeps every placed vertex in the grid and
      every placed edge under its source's layer. */
  lemma {:induction false} AddChainInGrid(ins: Instance, b: Build, chain: seq<Edge>, k: nat, pos: int)
    requires Sized(ins, b) && 0 <= pos < Width(ins)
    requires forall j :: 0 <= j < |chain| ==> 0 <= chain[j].source < ins.totalNumVertices && 0 <= chain[j].target < ins.totalNumVertices
    ensures InGrid(ins, b) ==> InGrid(ins, AddChain(ins, b, chain, k, pos))
    ensures SourcesKnown(b.edges, ins.layerOf) ==> SourcesKnown(AddChain(ins, b, chain, k, pos).edges, ins.layerOf)
    decreases |chain| - k
  {
    if k < |chain| {
      var b1 := AddVertex(ins, b, chain[k].target, pos);
      if InGrid(ins, b) {
        AddVertexInGrid(ins, b, chain[k].target, pos);
      }
      AddChainInGrid(ins, RecordEdge(ins, b1, chain[k]), chain, k + 1, pos);
    }
  }

  /** addLongEdge keeps every placed vertex in the grid and every placed
      edge under its source's layer. */
  lemma AddLongEdgeInGrid(ins: Instance, b: Build, le: Edge, pos: int)
    requires Sized(ins, b) && le in ins.longEdges && 0 <= pos < Width(ins)
    ensures InGrid(ins, b) ==> InGrid(ins, AddLongEdge(ins, b, le, pos))
    ensures SourcesKnown(b.edges, ins.layerOf) ==> SourcesKnown(AddLongEdge(ins, b, le, pos).edges, ins.layerOf)
  {
    ChainShapeOf(ins, le);
    if InGrid(ins, b) {
      AddVertexInGrid(ins, b, le.source, pos);
    }
    AddChainInGrid(ins, AddVertex(ins, b, le.source, pos), ins.chains[le], 0, pos);
  }

  /** The targets of the chain edges k, k + 1, ... */
  function Targets(chain: seq<Edge>, k: nat): set<int>
  {
    set j | k <= j < |chain| :: chain[j].target
  }

  /** The loop from chain edge k adds exactly the remaining targets. */
  lemma {:induction false} AddChainAdded(ins: Instance, b: Build, chain: seq<Edge>, k: nat, pos: int, base: int)
    requires Sized(ins, b) && 0 <= pos < Width(ins) && ChainShape(ins, chain, base)
    ensures AddChain(ins, b, chain, k, pos).added == b.added + Targets(chain, k)
    decreases |chain| - k
  {
    if k >= |chain| {
      assert Targets(chain, k) == {};
    } else {
      var b2 := RecordEdge(ins, AddVertex(ins, b, chain[k].target, pos), chain[k]);
      AddChainAdded(ins, b2, chain, k + 1, pos, base);
      assert Targets(chain, k) == {chain[k].target} + Targets(chain, k + 1);
    }
  }

  /** The loop from chain edge k moves no vertex outside the layers of the
      remaining targets. */
  lemma {:induction false} AddChainKeeps(ins: Instance, b: Build, chain: seq<Edge>, k: nat, pos: int, base: int)
    requires Sized(ins, b) && 0 <= pos < Width(ins) && ChainShape(ins, chain, base)
    ensures forall u :: 0 <= u < ins.totalNumVertices && !(base + k + 1 <= ins.layerOf[u] <= base + |chain|) ==>
      AddChain(ins, b, chain, k, pos).s.input[u] == b.s.input[u]
    decreases |chain| - k
  {
    if k < |chain| {
      var b2 := RecordEdge(ins, AddVertex(ins, b, chain[k].target, pos), chain[k]);
      AddChainKeeps(ins, b2, chain, k + 1, pos, base);
    }
  }

  /** The loop from chain edge k puts every remaining target into column pos. */
  lemma {:induction false} AddChainPlaces(ins: Instance, b: Build, chain: seq<Edge>, k: nat, pos: int, base: int)
    requires Sized(ins, b) && 0 <= pos < Width(ins) && ChainShape(ins, chain, base)
    ensures forall j :: k <= j < |chain| ==> PositionOf(ins, AddChain(ins, b, chain, k, pos).s, chain[j].target) == pos
    decreases |chain| - k
  {
    if k < |chain| {
      var b2 := RecordEdge(ins, AddVertex(ins, b, chain[k].target, pos), chain[k]);
      AddChainPlaces(ins, b2, chain, k + 1, pos, base);
      AddChainKeeps(ins, b2, chain, k + 1, pos, base);
      assert AddChain(ins, b2, chain, k + 1, pos).s.input[chain[k].target] == b2.s.input[chain[k].target];
    }
  }

  /** The loop from chain edge k marks exactly the cells of column pos in
      the layers of the remaining targets. */
  lemma {:induction false} AddChainUsed(ins: Instance, b: Build, chain: seq<Edge>, k: nat, pos: int, base: int)
    requires Sized(ins, b) && 0 <= pos < Width(ins) && ChainShape(ins, chain, base)
    ensures forall l, c :: 0 <= l < ins.numberOfLayers && 0 <= c < Width(ins) ==>
      AddChain(ins, b, chain, k, pos).used[l][c] == (b.used[l][c] || (c == pos && base + k + 1 <= l <= base + |chain|))
    decreases |chain| - k
  {
    if k < |chain| {
      var b2 := RecordEdge(ins, AddVertex(ins, b, chain[k].target, pos), chain[k]);
      AddChainUsed(ins, b2, chain, k + 1, pos, base);
    }
  }

  /** The loop from chain edge k lists exactly the remaining chain edges,
      each under its source's layer. */
  lemma {:induction false} AddChainEdges(ins: Instance, b: Build, chain: seq<Edge>, k: nat, pos: int, base: int)
    requires Sized(ins, b) && 0 <= pos < Width(ins) && ChainShape(ins, chain, base) && k <= |chain|
    ensures forall l :: 0 <= l < ins.numberOfLayers ==>
      forall e :: e in AddChain(ins, b, chain, k, pos).edges[l] <==> e in b.edges[l] || (e in chain[k..] && ins.layerOf[e.source] == l)
    decreases |chain| - k
  {
    if k < |chain| {
      var b2 := RecordEdge(ins, AddVertex(ins, b, chain[k].target, pos), chain[k]);
      AddChainEdges(ins, b2, chain, k + 1, pos, base);
      assert chain[k..] == [chain[k]] + chain[k + 1..];
    }
  }

  /** The cells (base + j, pos), j = k .. |chain|, are free. */
  ghost predicate ColumnFree(ins: Instance, b: Build, base: int, lo: int, hi: int, pos: int)
    requires Sized(ins, b) && 0 <= pos < Width(ins)
  {
    forall l :: lo <= l <= hi && 0 <= l < ins.numberOfLayers ==> !b.used[l][pos]
  }

  /** Listing an edge under its source's layer keeps the invariant. */
  lemma RecordEdgeOccupancy(ins: Instance, b: Build, e: Edge)
    requires Sized(ins, b) && Occupancy(ins, b) && 0 <= e.source < ins.totalNumVertices
    ensures Occupancy(ins, RecordEdge(ins, b, e))
  {
    var r := RecordEdge(ins, b, e);
    assert forall v :: v in r.added ==> Holds(ins, b, v);
    forall l, c | 0 <= l < ins.numberOfLayers && 0 <= c < Width(ins) && r.used[l][c] ensures Occupied(ins, r, l, c) {
      assert Occupied(ins, b, l, c);
    }
  }

  /** After the k-th target is placed, the later targets are still new. */
  lemma LaterTargetsNew(ins: Instance, chain: seq<Edge>, k: nat, base: int, added: set<int>, t0: int)
    requires |ins.layerOf| == ins.totalNumVertices && ChainShape(ins, chain, base)
    requires k < |chain| && t0 == chain[k].target
    requires Targets(chain, k) !! added
    ensures Targets(chain, k + 1) !! added + {t0}
  {
    forall t | t in Targets(chain, k + 1) ensures t !in added + {t0} {
      var j :| k + 1 <= j < |chain| && chain[j].target == t;
      assert t in Targets(chain, k);
      assert ins.layerOf[t] != ins.layerOf[t0];
    }
  }

  /** The loop keeps the invariant when the remaining targets are new and
      their cells are free. */
  lemma {:induction false} AddChainOccupancy(ins: Instance, b: Build, chain: seq<Edge>, k: nat, pos: int, base: int)
    requires Sized(ins, b) && Occupancy(ins, b) && 0 <= pos < Width(ins) && ChainShape(ins, chain, base)
    requires 0 <= base && base + |chain| < ins.numberOfLayers
    requires ColumnFree(ins, b, base, base + k + 1, base + |chain|, pos)
    requires Targets(chain, k) !! b.added
    ensures Occupancy(ins, AddChain(ins, b, chain, k, pos))
    decreases |chain| - k
  {
    if k < |chain| {
      var e := chain[k];
      assert e.target in Targets(chain, k);
      AddVertexOccupancy(ins, b, e.target, pos);
      var b1 := AddVertex(ins, b, e.target, pos);
      RecordEdgeOccupancy(ins, b1, e);
      var b2 := RecordEdge(ins, b1, e);
      LaterTargetsNew(ins, chain, k, base, b.added, e.target);
      assert ColumnFree(ins, b2, base, base + k + 2, base + |chain|, pos);
      AddChainOccupancy(ins, b2, chain, k + 1, pos, base);
    }
  }

  /** The vertices addLongEdge places: the long edge's chain vertices. */
  lemma ChainVerticesTargets(ins: Instance, le: Edge)
    requires le in ins.chains
    ensures ChainVertices(ins, le) == {le.source} + Targets(ins.chains[le], 0)
  {
  }

  /** addLongEdge adds exactly the chain vertices, all in column pos, and
      moves no vertex outside the layers of the long edge. */
  lemma AddLongEdgePlaces(ins: Instance, b: Build, le: Edge, pos: int)
    requires Sized(ins, b) && le in ins.longEdges && 0 <= pos < Width(ins)
    ensures le in ins.chains
    ensures AddLongEdge(ins, b, le, pos).added == b.added + ChainVertices(ins, le)
    ensures forall x :: x in ChainVertices(ins, le) ==> 0 <= x < ins.totalNumVertices && PositionOf(ins, AddLongEdge(ins, b, le, pos).s, x) == pos
    ensures forall u :: 0 <= u < ins.totalNumVertices &&
                        !(ins.layerOf[le.source] <= ins.layerOf[u] <= ins.layerOf[le.source] + |ins.chains[le]|) ==>
      AddLongEdge(ins, b, le, pos).s.input[u] == b.s.input[u]
  {
    ChainShapeOf(ins, le);
    var base := ins.layerOf[le.source];
    var chain := ins.chains[le];
    var b1 := AddVertex(ins, b, le.source, pos);
    AddChainAdded(ins, b1, chain, 0, pos, base);
    AddChainKeeps(ins, b1, chain, 0, pos, base);
    AddChainPlaces(ins, b1, chain, 0, pos, base);
    ChainVerticesTargets(ins, le);
    var r := AddLongEdge(ins, b, le, pos);
    assert r.s.input[le.source] == b1.s.input[le.source];
  }

  /** addLongEdge marks exactly the cells of column pos over the layers of
      the long edge. */
  lemma AddLongEdgeMarks(ins: Instance, b: Build, le: Edge, pos: int)
    requires Sized(ins, b) && le in ins.longEdges && 0 <= pos < Width(ins)
    ensures le in ins.chains
    ensures forall l, c :: 0 <= l < ins.numberOfLayers && 0 <= c < Width(ins) ==>
      AddLongEdge(ins, b, le, pos).used[l][c] ==
        (b.used[l][c] || (c == pos && ins.layerOf[le.source] <= l <= ins.layerOf[le.source] + |ins.chains[le]|))
  {
    ChainShapeOf(ins, le);
    var b1 := AddVertex(ins, b, le.source, pos);
    AddChainUsed(ins, b1, ins.chains[le], 0, pos, ins.layerOf[le.source]);
  }

  /** addLongEdge lists exactly the chain edges, each under the layer of its
      source. */
  lemma AddLongEdgeLists(ins: Instance, b: Build, le: Edge, pos: int)
    requires Sized(ins, b) && le in ins.longEdges && 0 <= pos < Width(ins)
    ensures le in ins.chains
    ensures forall l :: 0 <= l < ins.numberOfLayers ==>
      forall e :: e in AddLongEdge(ins, b, le, pos).edges[l] <==> e in b.edges[l] || (e in ins.chains[le] && InLayer(ins.layerOf, e, l))
  {
    ChainShapeOf(ins, le);
    var chain := ins.chains[le];
    var b1 := AddVertex(ins, b, le.source, pos);
    AddChainEdges(ins, b1, chain, 0, pos, ins.layerOf[le.source]);
    assert chain[0..] == chain;
  }

  /** The chain targets of a long edge none of whose vertices is in
      `added` stay out of it once the source joins. */
  lemma TargetsFresh(ins: Instance, le: Edge, added: set<int>)
    requires WellFormed(ins) && le in ins.longEdges && le in ins.chains
    requires ChainVertices(ins, le) !! added
    ensures Targets(ins.chains[le], 0) !! added + {le.source}
  {
    ChainShapeOf(ins, le);
    ChainVerticesTargets(ins, le);
    var chain := ins.chains[le];
    forall t | t in Targets(chain, 0) ensures t !in added + {le.source} {
      var j :| 0 <= j < |chain| && chain[j].target == t;
      assert ins.layerOf[t] == ins.layerOf[le.source] + j + 1;
    }
  }

  /** addLongEdge at a valid position (the whole column free over the long
      edge's layers) for a long edge none of whose vertices is placed keeps
      the invariant. */
  lemma AddLongEdgeOccupancy(ins: Instance, b: Build, le: Edge, pos: int)
    requires Sized(ins, b) && Occupancy(ins, b) && le in ins.longEdges && 0 <= pos < Width(ins)
    requires le in ins.chains && ChainVertices(ins, le) !! b.added
    requires forall l :: ins.layerOf[le.source] <= l <= ins.layerOf[le.source] + |ins.chains[le]| && 0 <= l < ins.numberOfLayers ==>
      !b.used[l][pos]
    ensures Occupancy(ins, AddLongEdge(ins, b, le, pos))
  {
    ChainShapeOf(ins, le);
    var base := ins.layerOf[le.source];
    var chain := ins.chains[le];
    assert le.source in ChainVertices(ins, le);
    assert 0 <= base;
    assert ins.layerOf[chain[|chain| - 1].target] == base + |chain|;
    assert base + |chain| < ins.numberOfLayers;
    AddVertexOccupancy(ins, b, le.source, pos);
    var b1 := AddVertex(ins, b, le.source, pos);
    assert ColumnFree(ins, b1, base, base + 1, base + |chain|, pos) by {
      forall l | base + 1 <= l <= base + |chain| && 0 <= l < ins.numberOfLayers ensures !b1.used[l][pos] {
        assert !b.used[l][pos];
      }
    }
    TargetsFresh(ins, le, b.added);
    AddChainOccupancy(ins, b1, chain, 0, pos, base);
  }

  /** Placing vertices never touches the cached score or the crossing
      matrix of the solution. */
  lemma {:induction false} AddChainKeepsScore(ins: Instance, b: Build, chain: seq<Edge>, k: nat, pos: int)
    requires Sized(ins, b) && 0 <= pos < Width(ins)
    requires forall j :: 0 <= j < |chain| ==> 0 <= chain[j].source < ins.totalNumVertices && 0 <= chain[j].target < ins.totalNumVertices
    ensures AddChain(ins, b, chain, k, pos).s.objective == b.s.objective
    ensures AddChain(ins, b, chain, k, pos).s.cuts == b.s.cuts
    decreases |chain| - k
  {
    if k < |chain| {
      AddChainKeepsScore(ins, RecordEdge(ins, AddVertex(ins, b, chain[k].target, pos), chain[k]), chain, k + 1, pos);
    }
  }

  /** addLongEdge keeps the cached score and the crossing matrix. */
  lemma AddLongEdgeKeepsScore(ins: Instance, b: Build, le: Edge, pos: int)
    requires Sized(ins, b) && le in ins.longEdges && 0 <= pos < Width(ins)
    ensures AddLongEdge(ins, b, le, pos).s.objective == b.s.objective
    ensures AddLongEdge(ins, b, le, pos).s.cuts == b.s.cuts
  {
    ChainShapeOf(ins, le);
    AddChainKeepsScore(ins, AddVertex(ins, b, le.source, pos), ins.chains[le], 0, pos);
  }
}
