/** The configurable parts of the GRASP constructor (GDConstructiveEvent):
    the four criteria enums, the stream of random draws that pickRandom and
    shuffle consume, and the dispatch from a criterion to its column rule. */
module GraspRules {
  import opened GraphModel
  import opened Solutions
  import opened PlacementRules
  import opened CrossingRule
  import opened TabuMemories
  import opened GraspState

  /** LongEdgeSelectionCriteria: the order the long edges are placed in. */
  datatype LongEdgeSelection = LeRandom | LongestFirst | ShortestFirst | LeMcAllister

  /** LongEdgeLocationCriteria: the column rule for a long edge. */
  datatype LongEdgeLocation = LocRandom | LocRandomWithTabu | LocMedian | LocMedianWithTabu

  /** InputVertexSelectionCriteria: the order the remaining vertices are placed in. */
  datatype VertexSelection = VsRandom | VsMcAllister

  /** HostVertexCriteria: the column rule for a remaining vertex. */
  datatype HostCriteria = HostRandom | HostCrossings | HostMedian | HostCrossingsMedian

  /** The constructor's parameters; the weights are doubles in the source. */
  datatype GraspConfig = GraspConfig(
    seW1: real, seW2: real, leW1: real, leW2: real,
    iterations: int, tabuSize: real,
    selection: VertexSelection, host: HostCriteria,
    leSelection: LongEdgeSelection, leLocation: LongEdgeLocation)

  /** The location criteria that read and update the tabu memory. */
  predicate UsesTabu(cfg: GraspConfig)
  {
    cfg.leLocation == LocRandomWithTabu || cfg.leLocation == LocMedianWithTabu
  }

  // ---------------------------------------------------------------------
  // Random draws: the numbers the generator returns are a parameter

  /** nextInt(bound): the next draw reduced into 0 .. bound - 1; an
      exhausted stream draws 0. */
  function NextInt(rnd: seq<nat>, bound: int): (r: (int, seq<nat>))
    requires bound > 0
    ensures 0 <= r.0 < bound
    ensures |rnd| > 0 ==> r.1 == rnd[1..]
    ensures |rnd| == 0 ==> r.1 == []
  {
    if |rnd| == 0 then (0, []) else (rnd[0] % bound, rnd[1..])
  }

  /** pickRandom: one of the candidates, chosen by the next draw. */
  function PickRandom(xs: seq<int>, rnd: seq<nat>): (r: (int, seq<nat>))
    requires |xs| > 0
    ensures r.0 in xs
    ensures |r.1| <= |rnd|
  {
    var (i, rest) := NextInt(rnd, |xs|);
    (xs[i], rest)
  }

  /** Every candidate is the pick of some draw. */
  lemma PickRandomComplete(xs: seq<int>, i: nat, rnd: seq<nat>)
    requires i < |xs|
    ensures PickRandom(xs, [i] + rnd) == (xs[i], rnd)
  {
    assert ([i] + rnd)[1..] == rnd;
    ModSmall(i, |xs|);
  }

  lemma ModSmall(a: int, n: int)
    requires 0 <= a < n
    ensures a % n == a
  {
  }

  /** shuffle: the next draw picks the first element among those left, and
      so on. */
  function Shuffle<T>(xs: seq<T>, rnd: seq<nat>): (r: (seq<T>, seq<nat>))
    ensures multiset(r.0) == multiset(xs)
    ensures |r.0| == |xs|
    decreases |xs|
  {
    if |xs| == 0 then ([], rnd)
    else
      var d := NextInt(rnd, |xs|);
      var i := d.0;
      assert xs == xs[..i] + [xs[i]] + xs[i + 1..];
      var r := Shuffle(xs[..i] + xs[i + 1..], d.1);
      ([xs[i]] + r.0, r.1)
  }

  /** A first draw of i puts xs[i] first. */
  lemma ShuffleFirst<T>(xs: seq<T>, i: nat, rnd: seq<nat>)
    requires i < |xs|
    ensures Shuffle(xs, [i] + rnd).0 == [xs[i]] + Shuffle(xs[..i] + xs[i + 1..], rnd).0
  {
    assert ([i] + rnd)[1..] == rnd;
    ModSmall(i, |xs|);
    assert NextInt([i] + rnd, |xs|) == (i, rnd);
  }

  /** Every permutation of xs is the outcome of some draws: the stream of
      draws models an arbitrary shuffle. */
  lemma {:induction false} ShuffleComplete<T>(xs: seq<T>, ys: seq<T>) returns (rnd: seq<nat>)
    requires multiset(xs) == multiset(ys)
    ensures Shuffle(xs, rnd).0 == ys
    decreases |xs|
  {
    if |xs| == 0 {
      assert |ys| == |multiset(ys)| == 0;
      rnd := [];
    } else {
      var i := MatchHead(xs, ys);
      var rest := xs[..i] + xs[i + 1..];
      var rnd1 := ShuffleComplete(rest, ys[1..]);
      rnd := [i] + rnd1;
      ShuffleFirst(xs, i, rnd1);
      assert ys == [ys[0]] + ys[1..];
    }
  }

  /** The head of a non-empty permutation ys sits at some index i of xs,
      and the rests are permutations of each other. */
  lemma MatchHead<T>(xs: seq<T>, ys: seq<T>) returns (i: int)
    requires multiset(xs) == multiset(ys) && |xs| > 0
    ensures 0 <= i < |xs| && |ys| > 0 && xs[i] == ys[0]
    ensures multiset(xs[..i] + xs[i + 1..]) == multiset(ys[1..])
  {
    assert |ys| == |multiset(ys)| == |xs|;
    assert ys[0] in multiset(xs);
    i :| 0 <= i < |xs| && xs[i] == ys[0];
    RemoveMatching(ys, xs, i);
  }

  /** Taking out the i-th element takes it out of the multiset. */
  lemma RemoveAt<T>(xs: seq<T>, i: int)
    requires 0 <= i < |xs|
    ensures multiset(xs) == multiset(xs[..i] + xs[i + 1..]) + multiset{xs[i]}
  {
    assert xs == xs[..i] + [xs[i]] + xs[i + 1..];
  }

  /** Matching heads: the rests are permutations of each other iff the
      wholes are. */
  lemma RemoveMatching<T>(xs: seq<T>, ys: seq<T>, i: int)
    requires |xs| > 0 && 0 <= i < |ys| && ys[i] == xs[0]
    ensures multiset(xs) == multiset(ys) <==> multiset(xs[1..]) == multiset(ys[..i] + ys[i + 1..])
  {
    RemoveAt(ys, i);
    RemoveAt(xs, 0);
    assert xs[..0] + xs[1..] == xs[1..];
    if multiset(xs) == multiset(ys) {
      Cancel(multiset(xs[1..]), multiset(ys[..i] + ys[i + 1..]), xs[0]);
    }
  }

  lemma SplitAt<T>(xs: seq<T>, i: int)
    requires 0 <= i < |xs|
    ensures xs == xs[..i] + ([xs[i]] + xs[i + 1..])
  {
  }

  lemma Cancel<T>(A: multiset<T>, B: multiset<T>, x: T)
    requires A + multiset{x} == B + multiset{x}
    ensures A == B
  {
    forall y ensures A[y] == B[y] {
      assert (A + multiset{x})[y] == (B + multiset{x})[y];
    }
  }

  // ---------------------------------------------------------------------
  // Columns of placed neighbours

  /** Every placed vertex has a column in 0 .. w - 1 in the table p. */
  predicate ColumnsIn(p: seq<int>, added: set<int>, w: int)
  {
    forall u :: u in added ==> 0 <= u < |p| && 0 <= p[u] < w
  }

  /** The columns (looked up in p) of the members of vs that are already
      placed, in the order of vs: the list positionsOfAdjacentVertices
      collects. */
  function PlacedColumns(p: seq<int>, added: set<int>, w: int, vs: seq<int>): (ps: seq<int>)
    requires ColumnsIn(p, added, w)
    ensures forall i :: 0 <= i < |ps| ==> 0 <= ps[i] < w
    ensures |ps| == 0 <==> forall u :: u in vs ==> u !in added
    ensures |ps| <= |vs|
  {
    if |vs| == 0 then []
    else
      var rest := PlacedColumns(p, added, w, vs[1..]);
      assert forall u :: u in vs <==> u == vs[0] || u in vs[1..];
      (if vs[0] in added then [p[vs[0]]] else []) + rest
  }

  /** Collecting over a concatenation concatenates the collections. */
  lemma {:induction false} PlacedColumnsAppend(p: seq<int>, added: set<int>, w: int, xs: seq<int>, ys: seq<int>)
    requires ColumnsIn(p, added, w)
    ensures PlacedColumns(p, added, w, xs + ys) == PlacedColumns(p, added, w, xs) + PlacedColumns(p, added, w, ys)
    decreases |xs|
  {
    if |xs| > 0 {
      var zs := xs + ys;
      assert zs[0] == xs[0] && zs[1..] == xs[1..] + ys;
      PlacedColumnsAppend(p, added, w, xs[1..], ys);
    } else {
      assert xs + ys == ys;
    }
  }

  /** The collected columns, as a multiset, do not depend on the order the
      neighbours are visited in: HashSet iteration order is immaterial. */
  lemma {:induction false} PlacedColumnsOrderFree(p: seq<int>, added: set<int>, w: int, xs: seq<int>, ys: seq<int>)
    requires ColumnsIn(p, added, w)
    requires multiset(xs) == multiset(ys)
    ensures multiset(PlacedColumns(p, added, w, xs)) == multiset(PlacedColumns(p, added, w, ys))
    decreases |xs|
  {
    if |xs| == 0 {
      assert |ys| == |multiset(ys)| == 0;
    } else {
      var x := xs[0];
      assert x in multiset(ys);
      var i :| 0 <= i < |ys| && ys[i] == x;
      RemoveMatching(xs, ys, i);
      PlacedColumnsOrderFree(p, added, w, xs[1..], ys[..i] + ys[i + 1..]);
      PlacedColumnsRemove(p, added, w, ys, i);
      PlacedColumnsRemove(p, added, w, xs, 0);
      assert xs[..0] + xs[1..] == xs[1..];
    }
  }

  /** Collecting over ys is collecting over ys[i] and over the rest. */
  lemma PlacedColumnsRemove(p: seq<int>, added: set<int>, w: int, ys: seq<int>, i: int)
    requires ColumnsIn(p, added, w) && 0 <= i < |ys|
    ensures multiset(PlacedColumns(p, added, w, ys)) ==
      multiset(PlacedColumns(p, added, w, [ys[i]])) + multiset(PlacedColumns(p, added, w, ys[..i] + ys[i + 1..]))
  {
    var a, c := ys[..i], ys[i + 1..];
    SplitAt(ys, i);
    PlacedColumnsAppend(p, added, w, a, [ys[i]] + c);
    PlacedColumnsAppend(p, added, w, [ys[i]], c);
    PlacedColumnsAppend(p, added, w, a, c);
    Regroup(PlacedColumns(p, added, w, ys), PlacedColumns(p, added, w, a), PlacedColumns(p, added, w, [ys[i]]),
            PlacedColumns(p, added, w, c), PlacedColumns(p, added, w, a + c));
  }

  /** The multiset bookkeeping of the step above. */
  lemma Regroup(P: seq<int>, pa: seq<int>, px: seq<int>, pc: seq<int>, Q: seq<int>)
    requires P == pa + (px + pc) && Q == pa + pc
    ensures multiset(P) == multiset(px) + multiset(Q)
  {
  }

  predicate NoRepeats(xs: seq<int>)
  {
    forall i, j :: 0 <= i < j < |xs| ==> xs[i] != xs[j]
  }

  /** In a list without repetitions every member occurs once. */
  lemma {:induction false} NoRepeatsCount(xs: seq<int>)
    requires NoRepeats(xs)
    ensures forall u :: multiset(xs)[u] == if u in xs then 1 else 0
    decreases |xs|
  {
    if |xs| > 0 {
      var t := xs[1..];
      assert NoRepeats(t) by {
        forall i, j | 0 <= i < j < |t| ensures t[i] != t[j] {
          assert t[i] == xs[i + 1] && t[j] == xs[j + 1];
        }
      }
      NoRepeatsCount(t);
      assert forall j :: 0 <= j < |t| ==> t[j] != xs[0] by {
        forall j | 0 <= j < |t| ensures t[j] != xs[0] {
          assert t[j] == xs[j + 1];
        }
      }
      assert xs[0] !in t;
      assert xs == [xs[0]] + t;
      assert forall u :: u in xs <==> u == xs[0] || u in t;
    }
  }

  /** Two enumerations of one set without repetitions are permutations of
      each other. */
  lemma EnumerationsAgree(xs: seq<int>, ys: seq<int>)
    requires NoRepeats(xs) && NoRepeats(ys)
    requires forall u :: u in xs <==> u in ys
    ensures multiset(xs) == multiset(ys)
  {
    NoRepeatsCount(xs);
    NoRepeatsCount(ys);
    assert forall u :: multiset(xs)[u] == multiset(ys)[u];
  }

  /** The neighbours of a long edge that are long-edge endpoints, in
      ascending order: one enumeration of the set the source iterates. */
  function NeighbourOrder(ins: Instance, le: Edge): (r: seq<int>)
    requires WellFormed(ins)
    requires 0 <= le.source < ins.totalNumVertices && 0 <= le.target < ins.totalNumVertices
    ensures forall u :: u in r <==> u in LongEdgeNeighbourhood(ins, le)
    ensures forall i, j :: 0 <= i < j < |r| ==> r[i] < r[j]
  {
    AdjacentInRange(ins, le.source, All);
    AdjacentInRange(ins, le.target, All);
    Ascending(LongEdgeNeighbourhood(ins, le), 0, ins.totalNumVertices)
  }

  /** The positions table of the build's solution covers every placed
      vertex with a column of the grid. */
  lemma InGridColumns(ins: Instance, b: Build)
    requires Sized(ins, b) && InGrid(ins, b)
    ensures ColumnsIn(Positions(ins, b.s), b.added, Width(ins))
  {
  }

  /** The columns of the placed neighbours of a long edge, one per placed
      neighbour. */
  function LongEdgeColumns(ins: Instance, b: Build, le: Edge): (ps: seq<int>)
    requires Sized(ins, b) && InGrid(ins, b)
    requires 0 <= le.source < ins.totalNumVertices && 0 <= le.target < ins.totalNumVertices
    ensures forall i :: 0 <= i < |ps| ==> 0 <= ps[i] < Width(ins)
    ensures |ps| == 0 <==> forall u :: u in LongEdgeNeighbourhood(ins, le) ==> u !in b.added
  {
    InGridColumns(ins, b);
    PlacedColumns(Positions(ins, b.s), b.added, Width(ins), NeighbourOrder(ins, le))
  }

  /** Any enumeration of the neighbourhood without repetitions collects
      the same columns, up to order. */
  lemma LongEdgeColumnsAnyOrder(ins: Instance, b: Build, le: Edge, order: seq<int>)
    requires Sized(ins, b) && InGrid(ins, b)
    requires 0 <= le.source < ins.totalNumVertices && 0 <= le.target < ins.totalNumVertices
    requires NoRepeats(order) && forall u :: u in order <==> u in LongEdgeNeighbourhood(ins, le)
    ensures ColumnsIn(Positions(ins, b.s), b.added, Width(ins))
    ensures multiset(PlacedColumns(Positions(ins, b.s), b.added, Width(ins), order)) == multiset(LongEdgeColumns(ins, b, le))
  {
    InGridColumns(ins, b);
    var r := NeighbourOrder(ins, le);
    assert NoRepeats(r);
    EnumerationsAgree(order, r);
    PlacedColumnsOrderFree(Positions(ins, b.s), b.added, Width(ins), order, r);
  }

  // ---------------------------------------------------------------------
  // getLongEdgePositions

  /** A long edge's source layer and chain lie inside the grid. */
  lemma LongEdgeSpan(ins: Instance, le: Edge)
    requires WellFormed(ins) && le in ins.longEdges
    ensures le in ins.chains
    ensures 0 <= le.source < ins.totalNumVertices && 0 <= le.target < ins.totalNumVertices
    ensures 0 <= ins.layerOf[le.source] && ins.layerOf[le.source] + |ins.chains[le]| < ins.numberOfLayers
  {
    ChainShapeOf(ins, le);
    assert LayersWellFormed(ins);
    var c := ins.chains[le];
    assert c[|c| - 1].target == le.target;
  }

  /** Column c is free in every layer the long edge spans. */
  ghost predicate Fits(ins: Instance, b: Build, le: Edge, c: int)
    requires Sized(ins, b) && le in ins.chains && 0 <= le.source < |ins.layerOf|
  {
    && 0 <= c < Width(ins)
    && forall l :: ins.layerOf[le.source] <= l <= ins.layerOf[le.source] + |ins.chains[le]| && 0 <= l < ins.numberOfLayers ==>
         !b.used[l][c]
  }

  /** getLongEdgePositions: the candidate columns of the configured rule.
      Every rule returns columns that fit; RANDOM returns all of them and
      RANDOM_WITH_TABU all that are not tabu for the long edge. */
  function LongEdgeCandidates(ins: Instance, cfg: GraspConfig, b: Build, t: TabuMemory, le: Edge): (r: seq<int>)
    requires Sized(ins, b) && InGrid(ins, b) && le in ins.longEdges
    requires UsesTabu(cfg) ==> Tracked(t, le)
    ensures le in ins.chains && 0 <= le.source < ins.totalNumVertices
    ensures forall c :: c in r ==> Fits(ins, b, le, c)
    ensures cfg.leLocation == LocRandom ==> forall c :: c in r <==> Fits(ins, b, le, c)
    ensures cfg.leLocation == LocRandomWithTabu ==> forall c :: c in r <==> Fits(ins, b, le, c) && !IsInTabuList(t, le, c)
  {
    LongEdgeSpan(ins, le);
    var layer := ins.layerOf[le.source];
    var size := |ins.chains[le]| + 1;
    var w := Width(ins);
    assert Rows(b.used, layer, size, w);
    match cfg.leLocation
    case LocRandom => RandomRule(b.used, layer, size, w)
    case LocRandomWithTabu => RandomTabuRule(b.used, layer, size, w, t.members[le])
    case LocMedian => MedianLongEdgeRule(b.used, layer, size, w, LongEdgeColumns(ins, b, le))
    case LocMedianWithTabu => MedianTabuLongEdgeRule(b.used, layer, size, w, LongEdgeColumns(ins, b, le), t.members[le])
  }

  /** Fitting is isValidPosition over the long edge's layers. */
  lemma FitsValid(ins: Instance, b: Build, le: Edge, c: int)
    requires Sized(ins, b) && le in ins.longEdges
    ensures le in ins.chains && 0 <= le.source < ins.totalNumVertices
    ensures 0 <= ins.layerOf[le.source] && ins.layerOf[le.source] + |ins.chains[le]| + 1 <= |b.used|
    ensures Fits(ins, b, le, c) <==>
      0 <= c < Width(ins) && IsValidPosition(b.used, ins.layerOf[le.source], c, |ins.chains[le]| + 1)
  {
    LongEdgeSpan(ins, le);
  }

  /** Under RANDOM and MEDIAN the construction gives up on a long edge
      exactly when no column fits it. */
  lemma LongEdgeCandidatesEmpty(ins: Instance, cfg: GraspConfig, b: Build, t: TabuMemory, le: Edge)
    requires Sized(ins, b) && InGrid(ins, b) && le in ins.longEdges
    requires cfg.leLocation == LocRandom || cfg.leLocation == LocMedian
    ensures le in ins.chains && 0 <= le.source < ins.totalNumVertices
    ensures |LongEdgeCandidates(ins, cfg, b, t, le)| == 0 <==> forall c :: !Fits(ins, b, le, c)
  {
    LongEdgeSpan(ins, le);
    var r := LongEdgeCandidates(ins, cfg, b, t, le);
    if |r| > 0 {
      assert r[0] in r;
    } else if cfg.leLocation == LocMedian {
      var layer := ins.layerOf[le.source];
      var size := |ins.chains[le]| + 1;
      MedianLongEdgeRuleEmpty(b.used, layer, size, Width(ins), LongEdgeColumns(ins, b, le));
      forall c ensures !Fits(ins, b, le, c) {
        FitsValid(ins, b, le, c);
      }
    }
  }

  // ---------------------------------------------------------------------
  // getBestPositionOfVertex

  /** The criteria whose rule lists v's new edges in addedEdges. */
  predicate RecordsEdges(cfg: GraspConfig)
  {
    cfg.host == HostCrossings || cfg.host == HostCrossingsMedian
  }

  /** The columns of v's placed neighbours, in adjacency-list order. */
  function NeighbourColumns(ins: Instance, b: Build, v: int): (ps: seq<int>)
    requires Sized(ins, b) && InGrid(ins, b) && 0 <= v < ins.totalNumVertices
    ensures forall i :: 0 <= i < |ps| ==> 0 <= ps[i] < Width(ins)
    ensures |ps| == 0 <==> forall u :: u in AdjacentList(ins, v, All) ==> u !in b.added
  {
    InGridColumns(ins, b);
    AdjacentInRange(ins, v, All);
    PlacedColumns(Positions(ins, b.s), b.added, Width(ins), AdjacentList(ins, v, All))
  }

  /** The edges of v whose other end is placed have sources with a layer. */
  lemma EdgesToAddKnown(ins: Instance, b: Build, v: int)
    requires Sized(ins, b) && 0 <= v < ins.totalNumVertices
    ensures v in ins.adjacency
    ensures SourcesIn(EdgesToAdd(ins, v, b.added), ins.layerOf)
    ensures forall e :: e in EdgesToAdd(ins, v, b.added) ==>
      0 <= e.source < |ins.layerOf| && 0 <= ins.layerOf[e.source] < |b.edges|
  {
    AdjacentInRange(ins, v, Target);
    assert LayersWellFormed(ins);
  }

  /** The crossing rule's columns for v: free cells of least count against
      the placed edges of v's layer and the layer above. */
  function CrossingColumns(ins: Instance, b: Build, v: int): (r: seq<int>)
    requires Sized(ins, b) && SourcesKnown(b.edges, ins.layerOf) && 0 <= v < ins.totalNumVertices
    ensures 0 <= ins.layerOf[v] < ins.numberOfLayers
    ensures forall c :: c in r ==> 0 <= c < Width(ins) && !b.used[ins.layerOf[v]][c]
  {
    EdgesToAddKnown(ins, b, v);
    assert LayersWellFormed(ins);
    GetPositionsCrossings(Positions(ins, b.s), ins.layerOf, b.used, ins.layerOf[v], v, EdgesToAdd(ins, v, b.added), b.edges)
  }

  /** The edge lists a crossing rule leaves behind, as written: v's layer
      keeps the previous layer's edges it borrowed for the count, then v's
      edges to placed vertices are recorded. */
  function CrossingLists(ins: Instance, b: Build, v: int): (r: seq<seq<Edge>>)
    requires Sized(ins, b) && SourcesKnown(b.edges, ins.layerOf) && 0 <= v < ins.totalNumVertices
    ensures v in ins.adjacency && 0 <= ins.layerOf[v] < ins.numberOfLayers
    ensures |r| == ins.numberOfLayers && SourcesKnown(r, ins.layerOf)
    ensures forall l, e :: 0 <= l < ins.numberOfLayers && e in b.edges[l] ==> e in r[l]
    ensures forall e :: e in EdgesToAdd(ins, v, b.added) ==> 0 <= e.source < |ins.layerOf| && 0 <= ins.layerOf[e.source] < |r| && e in r[ins.layerOf[e.source]]
    ensures forall e :: e in Others(b.edges, ins.layerOf[v]) ==> e in r[ins.layerOf[v]]
  {
    EdgesToAddKnown(ins, b, v);
    assert LayersWellFormed(ins);
    GetPositionsCrossingsAsWritten(Positions(ins, b.s), ins.layerOf, b.used, ins.layerOf[v], v, EdgesToAdd(ins, v, b.added), b.edges).1
  }

  /** getBestPositionOfVertex: the candidate columns of the configured rule
      and the edge lists afterwards. Every column is a free cell of v's
      layer; RANDOM returns all of them; CROSSINGS returns those of least
      count; only the crossing rules change the edge lists, as written. */
  function HostCandidates(ins: Instance, cfg: GraspConfig, b: Build, v: int): (r: (seq<int>, seq<seq<Edge>>))
    requires Sized(ins, b) && InGrid(ins, b) && SourcesKnown(b.edges, ins.layerOf)
    requires 0 <= v < ins.totalNumVertices
    ensures 0 <= ins.layerOf[v] < ins.numberOfLayers && v in ins.adjacency
    ensures forall c :: c in r.0 ==> 0 <= c < Width(ins) && !b.used[ins.layerOf[v]][c]
    ensures cfg.host == HostRandom ==> forall c :: c in r.0 <==> 0 <= c < Width(ins) && !b.used[ins.layerOf[v]][c]
    ensures cfg.host == HostCrossings ==> r.0 == CrossingColumns(ins, b, v)
    ensures |r.1| == ins.numberOfLayers && SourcesKnown(r.1, ins.layerOf)
    ensures r.1 == if RecordsEdges(cfg) then CrossingLists(ins, b, v) else b.edges
  {
    EdgesToAddKnown(ins, b, v);
    assert LayersWellFormed(ins);
    var layer := ins.layerOf[v];
    var w := Width(ins);
    match cfg.host
    case HostRandom => (RandomVertexRule(b.used, layer, w), b.edges)
    case HostCrossings => (CrossingColumns(ins, b, v), CrossingLists(ins, b, v))
    case HostMedian => (MedianVertexRule(b.used, layer, w, NeighbourColumns(ins, b, v)), b.edges)
    case HostCrossingsMedian =>
      (CrossingsMedianVertexRule(b.used, layer, w, NeighbourColumns(ins, b, v), CrossingColumns(ins, b, v)), CrossingLists(ins, b, v))
  }

  /** The columns of the crossing rule are the free cells of least count,
      and none is missing: every free cell of that count is listed. */
  lemma CrossingColumnsLeast(ins: Instance, b: Build, v: int)
    requires Sized(ins, b) && SourcesKnown(b.edges, ins.layerOf) && 0 <= v < ins.totalNumVertices
    ensures 0 <= ins.layerOf[v] < ins.numberOfLayers && v in ins.adjacency
    ensures SourcesIn(EdgesToAdd(ins, v, b.added), ins.layerOf) && SourcesKnown(b.edges, ins.layerOf)
    ensures var toAdd := EdgesToAdd(ins, v, b.added);
            var others := Others(b.edges, ins.layerOf[v]);
            var p := Positions(ins, b.s);
            var row := b.used[ins.layerOf[v]];
            var r := CrossingColumns(ins, b, v);
            && (forall c, d :: c in r && 0 <= d < |row| && !row[d] ==>
                  CalculateCrossings(p, ins.layerOf, v, c, toAdd, others) <= CalculateCrossings(p, ins.layerOf, v, d, toAdd, others))
            && (forall c, d :: c in r && 0 <= d < |row| && !row[d] &&
                  (CalculateCrossings(p, ins.layerOf, v, d, toAdd, others) == CalculateCrossings(p, ins.layerOf, v, c, toAdd, others))
                  ==> d in r)
  {
    EdgesToAddKnown(ins, b, v);
    assert LayersWellFormed(ins);
  }
}
