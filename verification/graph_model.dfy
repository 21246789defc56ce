/** The layered graph ("proper hierarchy graph") of GDInstance: real and dummy
    vertices, short edges between adjacent layers, long edges represented by
    chains of short edges through dummy vertices, and the indices derived
    from them when the instance is built. */
module GraphModel {

  /** A directed edge (GDInstance.Edge); equality is component-wise. */
  datatype Edge = Edge(source: int, target: int)

  /** Which side of a vertex an adjacency query looks at. SOURCE of v lists
      the targets of the edges leaving v, TARGET lists the sources of the
      edges entering v, ALL lists both in edge order. */
  datatype AdjKind = Source | Target | All

  /** The three adjacency lists kept per vertex. */
  datatype Adjacency = Adjacency(source: seq<int>, target: seq<int>, all: seq<int>)

  const EmptyAdjacency := Adjacency([], [], [])

  /** The fields handed to the GDInstance constructor. Every index the
      constructor derives from them is a function below. */
  datatype Instance = Instance(
    totalNumVertices: int,
    numRealVertices: int,
    numDummyVertices: int,
    numEdges: int,
    numRealEdges: int,
    numRealLongEdges: int,
    numDummyEdges: int,
    numberOfLayers: int,
    totalListOfVertices: set<int>,
    realVertices: set<int>,
    dummyVertices: set<int>,
    shortEdges: seq<Edge>,
    longEdges: seq<Edge>,
    adjacency: map<int, Adjacency>,
    chains: map<Edge, seq<Edge>>,
    verticesInLayer: map<int, seq<int>>,
    layerOf: seq<int>)

  // ---------------------------------------------------------------------
  // Edge

  /** Both endpoints of e are vertices 0 .. n - 1. */
  predicate EdgeIn(e: Edge, n: int)
  {
    0 <= e.source < n && 0 <= e.target < n
  }

  // ---------------------------------------------------------------------
  // Adjacency lists as the importer builds them, edge by edge

  /** Targets of the edges of E leaving v, in edge order. */
  function SourceList(E: seq<Edge>, v: int): (r: seq<int>)
    ensures |r| <= |E|
  {
    if |E| == 0 then []
    else SourceList(E[..|E| - 1], v) + (if E[|E| - 1].source == v then [E[|E| - 1].target] else [])
  }

  /** Sources of the edges of E entering v, in edge order. */
  function TargetList(E: seq<Edge>, v: int): (r: seq<int>)
    ensures |r| <= |E|
  {
    if |E| == 0 then []
    else TargetList(E[..|E| - 1], v) + (if E[|E| - 1].target == v then [E[|E| - 1].source] else [])
  }

  /** Both, interleaved in edge order. */
  function AllList(E: seq<Edge>, v: int): seq<int>
  {
    if |E| == 0 then []
    else
      var e := E[|E| - 1];
      AllList(E[..|E| - 1], v)
        + (if e.source == v then [e.target] else [])
        + (if e.target == v then [e.source] else [])
  }

  lemma SourceListMembers(E: seq<Edge>, v: int, w: int)
    ensures w in SourceList(E, v) <==> exists i :: 0 <= i < |E| && E[i] == Edge(v, w)
  {
    if |E| > 0 {
      SourceListMembers(E[..|E| - 1], v, w);
      if w in SourceList(E, v) && w !in SourceList(E[..|E| - 1], v) {
        assert E[|E| - 1] == Edge(v, w);
      }
      if exists i :: 0 <= i < |E| && E[i] == Edge(v, w) {
        var i :| 0 <= i < |E| && E[i] == Edge(v, w);
        if i < |E| - 1 {
          assert E[..|E| - 1][i] == Edge(v, w);
        }
      }
    }
  }

  lemma TargetListMembers(E: seq<Edge>, v: int, w: int)
    ensures w in TargetList(E, v) <==> exists i :: 0 <= i < |E| && E[i] == Edge(w, v)
  {
    if |E| > 0 {
      TargetListMembers(E[..|E| - 1], v, w);
      if w in TargetList(E, v) && w !in TargetList(E[..|E| - 1], v) {
        assert E[|E| - 1] == Edge(w, v);
      }
      if exists i :: 0 <= i < |E| && E[i] == Edge(w, v) {
        var i :| 0 <= i < |E| && E[i] == Edge(w, v);
        if i < |E| - 1 {
          assert E[..|E| - 1][i] == Edge(w, v);
        }
      }
    }
  }

  lemma AllListMembers(E: seq<Edge>, v: int, w: int)
    ensures w in AllList(E, v) <==> w in SourceList(E, v) || w in TargetList(E, v)
  {
    if |E| > 0 {
      AllListMembers(E[..|E| - 1], v, w);
    }
  }

  /** The adjacency triplet the importer leaves for v. */
  function DerivedAdjacency(E: seq<Edge>, v: int): Adjacency
  {
    Adjacency(SourceList(E, v), TargetList(E, v), AllList(E, v))
  }

  /** The list of one kind in a triplet. */
  function Select(a: Adjacency, kind: AdjKind): seq<int>
  {
    match kind
    case Source => a.source
    case Target => a.target
    case All => a.all
  }

  // ---------------------------------------------------------------------
  // Queries of GDInstance

  /** NumVerticesInLayer: the size of layer 0's vertex list. */
  function NumVerticesInLayer(ins: Instance): nat
    requires 0 in ins.verticesInLayer
  {
    |ins.verticesInLayer[0]|
  }

  function LayerOf(ins: Instance, v: int): int
    requires 0 <= v < |ins.layerOf|
  {
    ins.layerOf[v]
  }

  function AreInSameLayer(ins: Instance, u: int, v: int): bool
    requires 0 <= u < |ins.layerOf| && 0 <= v < |ins.layerOf|
  {
    ins.layerOf[u] == ins.layerOf[v]
  }

  function IsDummy(ins: Instance, v: int): bool
  {
    v in ins.dummyVertices
  }

  /** getAdjacentShortVertexListOfVertex; a vertex without an entry makes the
      source dereference null, hence the precondition. */
  function AdjacentList(ins: Instance, v: int, kind: AdjKind): seq<int>
    requires v in ins.adjacency
  {
    Select(ins.adjacency[v], kind)
  }

  /** A list's elements collected one by one into a set (new HashSet<>(list)). */
  function ListToSet(xs: seq<int>): (r: set<int>)
    ensures forall x :: x in r <==> x in xs
  {
    if |xs| == 0 then {} else ListToSet(xs[..|xs| - 1]) + {xs[|xs| - 1]}
  }

  /** generateAdjacentSet: the set mirror of one adjacency list. */
  function AdjacentSet(ins: Instance, v: int, kind: AdjKind): set<int>
    requires v in ins.adjacency
  {
    ListToSet(AdjacentList(ins, v, kind))
  }

  /** areAdjacent(u, v, kind): membership in the set mirror. */
  function AreAdjacent(ins: Instance, u: int, v: int, kind: AdjKind): (r: bool)
    requires u in ins.adjacency
    ensures r <==> v in AdjacentList(ins, u, kind)
  {
    v in AdjacentSet(ins, u, kind)
  }

  predicate IsEndpoint(e: Edge, v: int)
  {
    e.source == v || e.target == v
  }

  /** The endpoints of a list of edges, collected edge by edge. */
  function Endpoints(edges: seq<Edge>): (r: set<int>)
    ensures forall v :: v in r <==>
      exists i :: 0 <= i < |edges| && IsEndpoint(edges[i], v)
  {
    if |edges| == 0 then {}
    else
      var r0 := Endpoints(edges[..|edges| - 1]);
      assert forall i :: 0 <= i < |edges| - 1 ==> edges[..|edges| - 1][i] == edges[i];
      r0 + {edges[|edges| - 1].source, edges[|edges| - 1].target}
  }

  /** generateListOfRealVerticesWithLongEdges. */
  function RealVerticesWithLongEdges(ins: Instance): set<int>
  {
    Endpoints(ins.longEdges)
  }

  /** generateListOfRealVerticesWithShortEdges. */
  function RealVerticesWithShortEdges(ins: Instance): set<int>
  {
    Endpoints(ins.shortEdges)
  }

  /** hasLongEdge: v is an endpoint of some long edge. */
  function HasLongEdge(ins: Instance, v: int): (r: bool)
    ensures r <==> exists i :: 0 <= i < |ins.longEdges| && IsEndpoint(ins.longEdges[i], v)
  {
    v in RealVerticesWithLongEdges(ins)
  }

  /** The source of e is a known vertex of layer h. */
  predicate InLayer(layerOf: seq<int>, e: Edge, h: int)
  {
    0 <= e.source < |layerOf| && layerOf[e.source] == h
  }

  /** The in-layer filter of generateListOfShortEdgesInLayer: the edges whose
      source lies in layer h, in input order. */
  function EdgesFromLayer(E: seq<Edge>, layerOf: seq<int>, h: int): (r: seq<Edge>)
    ensures forall e :: e in r <==> e in E && InLayer(layerOf, e, h)
    ensures |r| <= |E|
  {
    if |E| == 0 then []
    else
      var r0 := EdgesFromLayer(E[..|E| - 1], layerOf, h);
      var e := E[|E| - 1];
      assert forall x :: x in E <==> x in E[..|E| - 1] || x == e;
      r0 + (if InLayer(layerOf, e, h) then [e] else [])
  }

  /** shortEdgesOfLayer(h); an edge whose source has no layer entry makes
      the source index out of bounds, hence the precondition. */
  function ShortEdgesOfLayer(ins: Instance, h: int): seq<Edge>
    requires forall e :: e in ins.shortEdges ==> 0 <= e.source < |ins.layerOf|
  {
    EdgesFromLayer(ins.shortEdges, ins.layerOf, h)
  }

  /** Appending an edge appends it to exactly its own layer's list: the
      per-layer lists keep input order. */
  lemma EdgesFromLayerSnoc(E: seq<Edge>, e: Edge, layerOf: seq<int>, h: int)
    ensures EdgesFromLayer(E + [e], layerOf, h) ==
      EdgesFromLayer(E, layerOf, h) + (if InLayer(layerOf, e, h) then [e] else [])
  {
    assert (E + [e])[..|E + [e]| - 1] == E;
  }

  /** Collect into a set the members of xs satisfying hasLongEdge. */
  function LongEdgeMembers(ins: Instance, xs: seq<int>): (r: set<int>)
    ensures forall v :: v in r <==> v in xs && HasLongEdge(ins, v)
  {
    if |xs| == 0 then {}
    else
      var r0 := LongEdgeMembers(ins, xs[..|xs| - 1]);
      assert forall v :: v in xs <==> v in xs[..|xs| - 1] || v == xs[|xs| - 1];
      r0 + (if HasLongEdge(ins, xs[|xs| - 1]) then {xs[|xs| - 1]} else {})
  }

  /** generateAdjacentVerticesOfLongEdge: the ALL-neighbours of the long
      edge's source or target that are themselves long-edge endpoints. */
  function LongEdgeNeighbourhood(ins: Instance, le: Edge): (r: set<int>)
    requires le.source in ins.adjacency && le.target in ins.adjacency
    ensures forall v :: v in r <==>
      (v in AdjacentList(ins, le.source, All) || v in AdjacentList(ins, le.target, All))
      && HasLongEdge(ins, v)
  {
    LongEdgeMembers(ins, AdjacentList(ins, le.source, All))
      + LongEdgeMembers(ins, AdjacentList(ins, le.target, All))
  }

  // ---------------------------------------------------------------------
  // Dummy adjacency (generateListOfAdjacentDummyVertices)

  /** Chain lists exist and are non-empty for every key visited. */
  predicate ChainsPresent(chains: map<Edge, seq<Edge>>, keys: seq<Edge>)
  {
    forall k :: k in keys ==> k in chains && |chains[k]| > 0
  }

  function Lookup(m: map<int, Adjacency>, v: int): Adjacency
  {
    if v in m then m[v] else EmptyAdjacency
  }

  /** The dummy-adjacency map, visiting the long edges in the order `keys`
      (the iteration order of the chain HashMap, which Java leaves open):
      the source's SOURCE and ALL lists gain the first chain edge's target,
      the target's TARGET and ALL lists gain the last chain edge's source. */
  function DummyAdjacency(chains: map<Edge, seq<Edge>>, keys: seq<Edge>): map<int, Adjacency>
    requires ChainsPresent(chains, keys)
  {
    if |keys| == 0 then map[]
    else
      var m := DummyAdjacency(chains, keys[..|keys| - 1]);
      var le := keys[|keys| - 1];
      var chain := chains[le];
      var first := chain[0].target;
      var last := chain[|chain| - 1].source;
      var s := Lookup(m, le.source);
      var m1 := m[le.source := Adjacency(s.source + [first], s.target, s.all + [first])];
      var t := Lookup(m1, le.target);
      m1[le.target := Adjacency(t.source, t.target + [last], t.all + [last])]
  }

  /** First chain targets of the keys whose source is v, in visiting order. */
  function FirstTargetsFrom(chains: map<Edge, seq<Edge>>, keys: seq<Edge>, v: int): seq<int>
    requires ChainsPresent(chains, keys)
  {
    if |keys| == 0 then []
    else
      var le := keys[|keys| - 1];
      FirstTargetsFrom(chains, keys[..|keys| - 1], v) + (if le.source == v then [chains[le][0].target] else [])
  }

  /** Last chain sources of the keys whose target is v, in visiting order. */
  function LastSourcesTo(chains: map<Edge, seq<Edge>>, keys: seq<Edge>, v: int): seq<int>
    requires ChainsPresent(chains, keys)
  {
    if |keys| == 0 then []
    else
      var le := keys[|keys| - 1];
      var chain := chains[le];
      LastSourcesTo(chains, keys[..|keys| - 1], v) + (if le.target == v then [chain[|chain| - 1].source] else [])
  }

  lemma ChainsPresentPrefix(chains: map<Edge, seq<Edge>>, keys: seq<Edge>)
    requires ChainsPresent(chains, keys) && |keys| > 0
    ensures ChainsPresent(chains, keys[..|keys| - 1])
  {
    forall k | k in keys[..|keys| - 1] ensures k in chains && |chains[k]| > 0 {
      assert k in keys;
    }
  }

  /** One step of the dummy-adjacency fold, as seen from vertex v. */
  lemma DummyAdjacencyStep(chains: map<Edge, seq<Edge>>, keys: seq<Edge>, v: int)
    requires ChainsPresent(chains, keys) && |keys| > 0
    ensures ChainsPresent(chains, keys[..|keys| - 1])
    ensures
      var a0 := Lookup(DummyAdjacency(chains, keys[..|keys| - 1]), v);
      var a2 := Lookup(DummyAdjacency(chains, keys), v);
      var le := keys[|keys| - 1];
      var chain := chains[le];
      var ds := if le.source == v then [chain[0].target] else [];
      var dt := if le.target == v then [chain[|chain| - 1].source] else [];
      a2.source == a0.source + ds && a2.target == a0.target + dt &&
      multiset(a2.all) == multiset(a0.all) + multiset(ds) + multiset(dt)
  {
    ChainsPresentPrefix(chains, keys);
  }

  /** The SOURCE and TARGET lists of the dummy adjacency of v list the first
      and last chain hops of v's long edges, in visiting order; ALL holds both. */
  lemma DummyAdjacencyLists(chains: map<Edge, seq<Edge>>, keys: seq<Edge>, v: int)
    requires ChainsPresent(chains, keys)
    ensures Lookup(DummyAdjacency(chains, keys), v).source == FirstTargetsFrom(chains, keys, v)
    ensures Lookup(DummyAdjacency(chains, keys), v).target == LastSourcesTo(chains, keys, v)
    ensures multiset(Lookup(DummyAdjacency(chains, keys), v).all) ==
      multiset(FirstTargetsFrom(chains, keys, v)) + multiset(LastSourcesTo(chains, keys, v))
  {
    if |keys| > 0 {
      DummyAdjacencyStep(chains, keys, v);
      DummyAdjacencyLists(chains, keys[..|keys| - 1], v);
    }
  }

  /** Only long-edge endpoints receive a dummy-adjacency entry. */
  lemma DummyAdjacencyKeys(chains: map<Edge, seq<Edge>>, keys: seq<Edge>, v: int)
    requires ChainsPresent(chains, keys)
    ensures v in DummyAdjacency(chains, keys) <==>
      exists i :: 0 <= i < |keys| && IsEndpoint(keys[i], v)
  {
    if |keys| > 0 {
      var pre := keys[..|keys| - 1];
      ChainsPresentPrefix(chains, keys);
      DummyAdjacencyKeys(chains, pre, v);
      assert forall i :: 0 <= i < |pre| ==> pre[i] == keys[i];
      if exists i :: 0 <= i < |keys| && IsEndpoint(keys[i], v) {
        var i :| 0 <= i < |keys| && IsEndpoint(keys[i], v);
        if i < |keys| - 1 {
          assert IsEndpoint(pre[i], v);
        }
      }
    }
  }

  // ---------------------------------------------------------------------
  // Well-formed instances: what the rest of the model assumes of a graph

  /** Every layer holds exactly the vertices mapped to it, all layers have
      NumVerticesInLayer of them, and the vertex count fills the grid. */
  ghost predicate LayersWellFormed(ins: Instance)
  {
    && ins.numberOfLayers >= 1
    && |ins.layerOf| == ins.totalNumVertices
    && (forall h :: h in ins.verticesInLayer <==> 0 <= h < ins.numberOfLayers)
    && 0 in ins.verticesInLayer
    && ins.totalNumVertices == ins.numberOfLayers * NumVerticesInLayer(ins)
    && (forall v :: 0 <= v < ins.totalNumVertices ==> 0 <= ins.layerOf[v] < ins.numberOfLayers)
    && (forall h :: 0 <= h < ins.numberOfLayers ==> LayerListExact(ins, h))
  }

  ghost predicate LayerListExact(ins: Instance, h: int)
    requires h in ins.verticesInLayer && 0 in ins.verticesInLayer
    requires |ins.layerOf| == ins.totalNumVertices
  {
    var L := ins.verticesInLayer[h];
    && |L| == NumVerticesInLayer(ins)
    && (forall i, j :: 0 <= i < j < |L| ==> L[i] != L[j])
    && (forall v :: v in L <==> 0 <= v < ins.totalNumVertices && ins.layerOf[v] == h)
  }

  /** Short edges join existing vertices of adjacent layers. */
  ghost predicate EdgesWellFormed(ins: Instance)
    requires |ins.layerOf| == ins.totalNumVertices
  {
    forall e :: e in ins.shortEdges ==>
      && 0 <= e.source < ins.totalNumVertices
      && 0 <= e.target < ins.totalNumVertices
      && ins.layerOf[e.target] == ins.layerOf[e.source] + 1
  }

  /** Every vertex has the adjacency triplet the short edges induce. */
  ghost predicate AdjacencyWellFormed(ins: Instance)
  {
    forall v :: 0 <= v < ins.totalNumVertices ==>
      v in ins.adjacency && ins.adjacency[v] == DerivedAdjacency(ins.shortEdges, v)
  }

  /** The vertices of a long edge's chain: its source and every chain target. */
  function ChainVertices(ins: Instance, le: Edge): set<int>
    requires le in ins.chains
  {
    {le.source} + set k | 0 <= k < |ins.chains[le]| :: ins.chains[le][k].target
  }

  /** A chain runs from the long edge's source to its target, one layer per hop. */
  ghost predicate ChainWellFormed(ins: Instance, le: Edge)
    requires |ins.layerOf| == ins.totalNumVertices
  {
    && le in ins.chains
    && var c := ins.chains[le];
    && |c| > 0
    && c[0].source == le.source
    && c[|c| - 1].target == le.target
    && 0 <= le.source < ins.totalNumVertices
    && ins.layerOf[le.source] + |c| < ins.numberOfLayers
    && (forall k :: 0 <= k < |c| - 1 ==> c[k].target == c[k + 1].source)
    && (forall k :: 0 <= k < |c| ==>
          0 <= c[k].target < ins.totalNumVertices
          && ins.layerOf[c[k].target] == ins.layerOf[le.source] + k + 1)
  }

  /** Long edges are distinct, well formed, and pairwise vertex-disjoint. */
  ghost predicate ChainsWellFormed(ins: Instance)
    requires |ins.layerOf| == ins.totalNumVertices
  {
    && (forall i, j :: 0 <= i < j < |ins.longEdges| ==> ins.longEdges[i] != ins.longEdges[j])
    && (forall le :: le in ins.longEdges ==> ChainWellFormed(ins, le))
    && (forall i, j :: 0 <= i < j < |ins.longEdges| ==>
          ins.longEdges[i] in ins.chains && ins.longEdges[j] in ins.chains &&
          ChainVertices(ins, ins.longEdges[i]) !! ChainVertices(ins, ins.longEdges[j]))
  }

  /** Real and dummy vertices partition the vertex range; the dummies are
      exactly the chain vertices that are not long-edge endpoints. */
  ghost predicate PartitionWellFormed(ins: Instance)
  {
    && ins.realVertices !! ins.dummyVertices
    && (forall v :: v in ins.realVertices || v in ins.dummyVertices <==> 0 <= v < ins.totalNumVertices)
    && (forall v :: v in ins.dummyVertices ==> !HasLongEdge(ins, v))
  }

  ghost predicate WellFormed(ins: Instance)
  {
    && LayersWellFormed(ins)
    && EdgesWellFormed(ins)
    && AdjacencyWellFormed(ins)
    && ChainsWellFormed(ins)
    && PartitionWellFormed(ins)
  }
}
