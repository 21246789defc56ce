/** The CROSSINGS rule for placing a vertex (getPositionsCrossings): try v
    in every free column of its layer, count how many already placed edges
    the edges between v and its placed neighbours would cross, and keep the
    columns with the fewest. The placed edges are kept in one list per
    layer of their source (addedEdges). Positions are a table indexed by
    vertex. */
module CrossingRule {
  import opened GraphModel
  import opened Crossing
  import opened Solutions
  import opened PlacementRules

  // ---------------------------------------------------------------------
  // The crossing test and count

  /** isCut(edge, otherEdge, vertex, possiblePos): the four-position test
      with `vertex` tentatively in column possiblePos. */
  function IsCutAt(p: seq<int>, e: Edge, f: Edge, v: int, pv: int): bool
  {
    var posU := if e.source == v then pv else Pos(p, e.source);
    var posV := if e.target == v then pv else Pos(p, e.target);
    var posW := Pos(p, f.source);
    var posZ := Pos(p, f.target);
    if posU == posW then false
    else if posV == posZ then false
    else if posU < posW && posV < posZ then false
    else posU <= posW || posV <= posZ
  }

  /** The tentative test is the crossing predicate of the drawing in which
      v has moved to column pv, for an edge f that does not touch v. */
  lemma IsCutAtMoved(p: seq<int>, e: Edge, f: Edge, v: int, pv: int)
    requires 0 <= v < |p| && f.source != v && f.target != v
    ensures IsCutAt(p, e, f, v, pv) == Cut(p[v := pv], e, f)
  {
  }

  /** Every source of the listed edges has a layer. */
  predicate SourcesIn(edges: seq<Edge>, layerOf: seq<int>)
  {
    forall e :: e in edges ==> 0 <= e.source < |layerOf|
  }

  /** Every source of the recorded edges has a layer. */
  predicate SourcesKnown(st: seq<seq<Edge>>, layerOf: seq<int>)
  {
    forall l, e :: 0 <= l < |st| && e in st[l] ==> 0 <= e.source < |layerOf|
  }

  /** The inner loop of calculateCrossings: how many edges of others leave
      e's layer and cross e. */
  function CutsOf(p: seq<int>, layerOf: seq<int>, v: int, pv: int, e: Edge, others: seq<Edge>): (r: nat)
    requires 0 <= e.source < |layerOf| && SourcesIn(others, layerOf)
    ensures r <= |others|
    ensures r == 0 <==> forall f :: f in others && layerOf[f.source] == layerOf[e.source] ==> !IsCutAt(p, e, f, v, pv)
  {
    if |others| == 0 then 0
    else
      var f := others[|others| - 1];
      var init := others[..|others| - 1];
      assert forall g :: g in others <==> g in init || g == f;
      CutsOf(p, layerOf, v, pv, e, init)
        + (if layerOf[f.source] == layerOf[e.source] && IsCutAt(p, e, f, v, pv) then 1 else 0)
  }

  /** calculateCrossings(solution, v, posV, edgesToAdd, edgesToCalculateCrossings):
      the number of listed pairs (e, f), e new and f placed, that leave the
      same layer and cross with v in column posV. */
  function CalculateCrossings(p: seq<int>, layerOf: seq<int>, v: int, pv: int, toAdd: seq<Edge>, others: seq<Edge>): (r: nat)
    requires SourcesIn(toAdd, layerOf) && SourcesIn(others, layerOf)
    ensures r <= |toAdd| * |others|
    ensures r == 0 <==> forall e, f :: e in toAdd && f in others && layerOf[f.source] == layerOf[e.source] ==> !IsCutAt(p, e, f, v, pv)
  {
    if |toAdd| == 0 then 0
    else
      var e := toAdd[|toAdd| - 1];
      var init := toAdd[..|toAdd| - 1];
      assert forall g :: g in toAdd <==> g in init || g == e;
      var c := CutsOf(p, layerOf, v, pv, e, others);
      var r := CalculateCrossings(p, layerOf, v, pv, init, others) + c;
      assert |toAdd| == |init| + 1;
      assert |toAdd| * |others| == |init| * |others| + |others|;
      r
  }

  /** The count is additive over the list of placed edges: an edge listed
      twice is counted twice. */
  lemma {:induction false} CutsOfAppend(p: seq<int>, layerOf: seq<int>, v: int, pv: int, e: Edge, o1: seq<Edge>, o2: seq<Edge>)
    requires 0 <= e.source < |layerOf| && SourcesIn(o1, layerOf) && SourcesIn(o2, layerOf)
    ensures SourcesIn(o1 + o2, layerOf)
    ensures CutsOf(p, layerOf, v, pv, e, o1 + o2) == CutsOf(p, layerOf, v, pv, e, o1) + CutsOf(p, layerOf, v, pv, e, o2)
    decreases |o2|
  {
    if |o2| > 0 {
      var o2' := o2[..|o2| - 1];
      assert (o1 + o2)[..|o1 + o2| - 1] == o1 + o2';
      assert (o1 + o2)[|o1 + o2| - 1] == o2[|o2| - 1];
      CutsOfAppend(p, layerOf, v, pv, e, o1, o2');
    } else {
      assert o1 + o2 == o1;
    }
  }

  lemma {:induction false} CalculateCrossingsAppend(p: seq<int>, layerOf: seq<int>, v: int, pv: int, toAdd: seq<Edge>, o1: seq<Edge>, o2: seq<Edge>)
    requires SourcesIn(toAdd, layerOf) && SourcesIn(o1, layerOf) && SourcesIn(o2, layerOf)
    ensures SourcesIn(o1 + o2, layerOf)
    ensures CalculateCrossings(p, layerOf, v, pv, toAdd, o1 + o2) ==
      CalculateCrossings(p, layerOf, v, pv, toAdd, o1) + CalculateCrossings(p, layerOf, v, pv, toAdd, o2)
    decreases |toAdd|
  {
    if |toAdd| > 0 {
      CutsOfAppend(p, layerOf, v, pv, toAdd[|toAdd| - 1], o1, o2);
      CalculateCrossingsAppend(p, layerOf, v, pv, toAdd[..|toAdd| - 1], o1, o2);
    }
  }

  // ---------------------------------------------------------------------
  // The scan over the columns

  /** The loop of getPositionsCrossings from column i on: MinCuts starts at
      Integer.MAX_VALUE; a strictly smaller count restarts the list, an
      equal count extends it. */
  function ScanColumns(costs: seq<int>, free: seq<bool>, i: nat, minCuts: int, acc: seq<int>): (r: (seq<int>, int))
    requires |free| == |costs| && i <= |costs| && minCuts <= IntMax
    requires forall c :: c in acc <==> 0 <= c < i && free[c] && costs[c] == minCuts
    requires forall c :: 0 <= c < i && free[c] ==> minCuts <= costs[c]
    requires forall a, b :: 0 <= a < b < |acc| ==> acc[a] < acc[b]
    requires minCuts < IntMax ==> |acc| > 0
    ensures forall c :: c in r.0 <==> 0 <= c < |costs| && free[c] && costs[c] == r.1
    ensures forall c :: 0 <= c < |costs| && free[c] ==> r.1 <= costs[c]
    ensures forall a, b :: 0 <= a < b < |r.0| ==> r.0[a] < r.0[b]
    ensures r.1 <= IntMax && (r.1 < IntMax ==> |r.0| > 0)
    decreases |costs| - i
  {
    if i == |costs| then (acc, minCuts)
    else if !free[i] then ScanColumns(costs, free, i + 1, minCuts, acc)
    else if costs[i] < minCuts then ScanColumns(costs, free, i + 1, costs[i], [i])
    else if costs[i] == minCuts then
      assert forall a :: 0 <= a < |acc| ==> acc[a] in acc;
      ScanColumns(costs, free, i + 1, minCuts, acc + [i])
    else ScanColumns(costs, free, i + 1, minCuts, acc)
  }

  /** The columns the scan keeps: exactly the free columns of least count
      (unless every count exceeds Integer.MAX_VALUE), ascending. */
  function BestColumns(costs: seq<int>, free: seq<bool>): (r: (seq<int>, int))
    requires |free| == |costs|
    ensures forall c :: c in r.0 <==> 0 <= c < |costs| && free[c] && costs[c] == r.1
    ensures forall c :: 0 <= c < |costs| && free[c] ==> r.1 <= costs[c]
    ensures forall a, b :: 0 <= a < b < |r.0| ==> r.0[a] < r.0[b]
    ensures |r.0| == 0 <==> forall c :: 0 <= c < |costs| && free[c] ==> costs[c] > IntMax
  {
    var r := ScanColumns(costs, free, 0, IntMax, []);
    if |r.0| > 0 then
      assert r.0[0] in r.0;
      r
    else r
  }

  /** The count for every column of the layer. */
  function Costs(p: seq<int>, layerOf: seq<int>, v: int, w: nat, toAdd: seq<Edge>, others: seq<Edge>): (r: seq<int>)
    requires SourcesIn(toAdd, layerOf) && SourcesIn(others, layerOf)
    ensures |r| == w
    ensures forall c :: 0 <= c < w ==> r[c] == CalculateCrossings(p, layerOf, v, c, toAdd, others)
  {
    seq(w, c => CalculateCrossings(p, layerOf, v, c, toAdd, others))
  }

  // ---------------------------------------------------------------------
  // The edges between v and its placed neighbours

  /** (v, a) for every a of xs already placed, in list order. */
  function OutEdges(v: int, xs: seq<int>, added: set<int>): (r: seq<Edge>)
    ensures forall e :: e in r <==> e.source == v && e.target in xs && e.target in added
  {
    if |xs| == 0 then []
    else
      var init := xs[..|xs| - 1];
      assert forall x :: x in xs <==> x in init || x == xs[|xs| - 1];
      OutEdges(v, init, added) + (if xs[|xs| - 1] in added then [Edge(v, xs[|xs| - 1])] else [])
  }

  /** (a, v) for every a of xs already placed, in list order. */
  function InEdges(v: int, xs: seq<int>, added: set<int>): (r: seq<Edge>)
    ensures forall e :: e in r <==> e.target == v && e.source in xs && e.source in added
  {
    if |xs| == 0 then []
    else
      var init := xs[..|xs| - 1];
      assert forall x :: x in xs <==> x in init || x == xs[|xs| - 1];
      InEdges(v, init, added) + (if xs[|xs| - 1] in added then [Edge(xs[|xs| - 1], v)] else [])
  }

  /** edgesToAdd: the edges from v to its placed SOURCE neighbours, then
      those from its placed TARGET neighbours to v. */
  function EdgesToAdd(ins: Instance, v: int, added: set<int>): (r: seq<Edge>)
    requires v in ins.adjacency
    ensures forall e :: e in r <==>
      || (e.source == v && e.target in AdjacentList(ins, v, Source) && e.target in added)
      || (e.target == v && e.source in AdjacentList(ins, v, Target) && e.source in added)
  {
    OutEdges(v, AdjacentList(ins, v, Source), added) + InEdges(v, AdjacentList(ins, v, Target), added)
  }

  // ---------------------------------------------------------------------
  // The per-layer lists of placed edges

  /** Append every edge to the list of its source's layer, in order. */
  function AppendEach(st: seq<seq<Edge>>, edges: seq<Edge>, layerOf: seq<int>): (r: seq<seq<Edge>>)
    requires forall e :: e in edges ==> 0 <= e.source < |layerOf| && 0 <= layerOf[e.source] < |st|
    ensures |r| == |st|
    ensures forall l :: 0 <= l < |st| ==> forall e :: e in r[l] <==> e in st[l] || (e in edges && layerOf[e.source] == l)
  {
    if |edges| == 0 then st
    else
      var e := edges[|edges| - 1];
      var init := edges[..|edges| - 1];
      assert forall g :: g in edges <==> g in init || g == e;
      var r0 := AppendEach(st, init, layerOf);
      var l := layerOf[e.source];
      r0[l := r0[l] + [e]]
  }

  /** Every list holds only edges leaving its own layer. */
  ghost predicate ByLayer(st: seq<seq<Edge>>, layerOf: seq<int>)
  {
    forall l, e :: 0 <= l < |st| && e in st[l] ==> 0 <= e.source < |layerOf| && layerOf[e.source] == l
  }

  /** The placed edges the counts compare against: v's layer and, below
      layer 0, nothing more. */
  function Others(st: seq<seq<Edge>>, layer: int): (r: seq<Edge>)
    requires 0 <= layer < |st|
    ensures forall e :: e in r <==> e in st[layer] || (layer >= 1 && e in st[layer - 1])
  {
    st[layer] + (if layer - 1 >= 0 then st[layer - 1] else [])
  }

  /** The free columns of a row of the grid of used cells. */
  function FreeRow(row: seq<bool>): (r: seq<bool>)
    ensures |r| == |row| && forall c :: 0 <= c < |row| ==> r[c] == !row[c]
  {
    seq(|row|, c requires 0 <= c < |row| => !row[c])
  }

  /** The columns of least count among the free columns of v's layer, for
      a given list of placed edges. */
  function LeastCrossingColumns(p: seq<int>, layerOf: seq<int>, row: seq<bool>, v: int,
                                toAdd: seq<Edge>, others: seq<Edge>): (r: seq<int>)
    requires SourcesIn(toAdd, layerOf) && SourcesIn(others, layerOf)
    ensures forall c :: c in r ==> 0 <= c < |row| && !row[c]
    ensures forall c, d :: c in r && 0 <= d < |row| && !row[d] ==>
      CalculateCrossings(p, layerOf, v, c, toAdd, others) <= CalculateCrossings(p, layerOf, v, d, toAdd, others)
    ensures forall c, d :: c in r && 0 <= d < |row| && !row[d] &&
                          CalculateCrossings(p, layerOf, v, d, toAdd, others) == CalculateCrossings(p, layerOf, v, c, toAdd, others)
                          ==> d in r
    ensures forall a, b :: 0 <= a < b < |r| ==> r[a] < r[b]
    ensures |r| == 0 <==> forall c :: 0 <= c < |row| && !row[c] ==> CalculateCrossings(p, layerOf, v, c, toAdd, others) > IntMax
  {
    var costs := Costs(p, layerOf, v, |row|, toAdd, others);
    BestColumns(costs, FreeRow(row)).0
  }

  /** While no count can exceed Integer.MAX_VALUE, the rule returns a
      column exactly when the row has a free one. */
  lemma LeastCrossingColumnsEmpty(p: seq<int>, layerOf: seq<int>, row: seq<bool>, v: int, toAdd: seq<Edge>, others: seq<Edge>)
    requires SourcesIn(toAdd, layerOf) && SourcesIn(others, layerOf)
    requires |toAdd| * |others| <= IntMax
    ensures |LeastCrossingColumns(p, layerOf, row, v, toAdd, others)| == 0 <==> forall c :: 0 <= c < |row| ==> row[c]
  {
    var r := LeastCrossingColumns(p, layerOf, row, v, toAdd, others);
    if |r| == 0 {
      forall c | 0 <= c < |row| ensures row[c] {
        var k := CalculateCrossings(p, layerOf, v, c, toAdd, others);
        if !row[c] {
          assert false;
        }
      }
    }
  }

  /** The bookkeeping of getPositionsCrossings as written:
      edgesToCalculateCrossings is the very list addedEdges.get(layer), so
      addAll stores the previous layer's edges into v's layer for good; the
      new edges are recorded afterwards. Returns the list the counts use
      and the new addedEdges. */
  function CrossingListsAsWritten(st: seq<seq<Edge>>, layer: int, toAdd: seq<Edge>, layerOf: seq<int>): (r: (seq<Edge>, seq<seq<Edge>>))
    requires 0 <= layer < |st|
    requires forall e :: e in toAdd ==> 0 <= e.source < |layerOf| && 0 <= layerOf[e.source] < |st|
    ensures r.0 == Others(st, layer)
    ensures |r.1| == |st| && forall e :: e in Others(st, layer) ==> e in r.1[layer]
    ensures forall l, e :: 0 <= l < |st| && e in st[l] ==> e in r.1[l]
    ensures forall e :: e in toAdd ==> e in r.1[layerOf[e.source]]
    ensures SourcesKnown(st, layerOf) ==> SourcesKnown(r.1, layerOf)
  {
    var others := Others(st, layer);
    var st1 := st[layer := others];
    var st2 := AppendEach(st1, toAdd, layerOf);
    assert st1[layer] == others;
    assert |st2| == |st1|;
    forall e | e in others ensures e in st2[layer] {
      assert e in st1[layer];
    }
    forall l, e | 0 <= l < |st| && e in st[l] ensures e in st2[l] {
      assert e in st1[l];
    }
    assert SourcesKnown(st, layerOf) ==> SourcesKnown(st2, layerOf) by {
      if SourcesKnown(st, layerOf) {
        forall l, e | 0 <= l < |st2| && e in st2[l] ensures 0 <= e.source < |layerOf| {
          assert e in st1[l] || e in toAdd;
        }
      }
    }
    (others, st2)
  }

  /** getPositionsCrossings as written: the columns and the new addedEdges.
      The columns of one call are those of the corrected rule on the same
      lists; the two differ in the lists they leave for later calls. */
  function GetPositionsCrossingsAsWritten(p: seq<int>, layerOf: seq<int>, used: seq<seq<bool>>, layer: int,
                                          v: int, toAdd: seq<Edge>, st: seq<seq<Edge>>): (r: (seq<int>, seq<seq<Edge>>))
    requires 0 <= layer < |st| && 0 <= layer < |used|
    requires SourcesIn(toAdd, layerOf) && SourcesKnown(st, layerOf)
    requires forall e :: e in toAdd ==> 0 <= layerOf[e.source] < |st|
    ensures r.1 == CrossingListsAsWritten(st, layer, toAdd, layerOf).1
    ensures SourcesKnown(r.1, layerOf)
    ensures r.0 == GetPositionsCrossings(p, layerOf, used, layer, v, toAdd, st)
  {
    var lists := CrossingListsAsWritten(st, layer, toAdd, layerOf);
    (LeastCrossingColumns(p, layerOf, used[layer], v, toAdd, lists.0), lists.1)
  }

  /** getPositionsCrossings with the two lists joined into a fresh list:
      the free columns of least count against the placed edges of v's layer
      and the layer above. The new edges are then recorded with
      RecordEdges, which is all that changes addedEdges. */
  function GetPositionsCrossings(p: seq<int>, layerOf: seq<int>, used: seq<seq<bool>>, layer: int,
                                 v: int, toAdd: seq<Edge>, st: seq<seq<Edge>>): (r: seq<int>)
    requires 0 <= layer < |st| && 0 <= layer < |used|
    requires SourcesIn(toAdd, layerOf) && SourcesKnown(st, layerOf)
    ensures forall c :: c in r ==> 0 <= c < |used[layer]| && !used[layer][c]
    ensures forall c, d :: c in r && 0 <= d < |used[layer]| && !used[layer][d] ==>
      CalculateCrossings(p, layerOf, v, c, toAdd, Others(st, layer)) <= CalculateCrossings(p, layerOf, v, d, toAdd, Others(st, layer))
  {
    LeastCrossingColumns(p, layerOf, used[layer], v, toAdd, Others(st, layer))
  }

  /** Recording the new edges by the layer of their source. */
  function RecordEdges(st: seq<seq<Edge>>, edges: seq<Edge>, layerOf: seq<int>): (r: seq<seq<Edge>>)
    requires forall e :: e in edges ==> 0 <= e.source < |layerOf| && 0 <= layerOf[e.source] < |st|
    ensures |r| == |st|
    ensures forall l :: 0 <= l < |st| ==> forall e :: e in r[l] <==> e in st[l] || (e in edges && layerOf[e.source] == l)
    ensures ByLayer(st, layerOf) ==> ByLayer(r, layerOf)
  {
    AppendEach(st, edges, layerOf)
  }

  /** The one crossing of the counterexample below: the edge (1, 4) with 4
      in column 0 crosses the placed edge (0, 5). */
  lemma OneCrossing(p: seq<int>, layerOf: seq<int>)
    requires p == [0, 1, 0, 0, 0, 2] && layerOf == [0, 0, 0, 1, 1, 1]
    ensures CalculateCrossings(p, layerOf, 4, 0, [Edge(1, 4)], [Edge(0, 5)]) == 1
    ensures Cut(p[4 := 0], Edge(1, 4), Edge(0, 5))
  {
    assert IsCutAt(p, Edge(1, 4), Edge(0, 5), 4, 0);
    assert [Edge(0, 5)][..0] == [];
    assert CutsOf(p, layerOf, 4, 0, Edge(1, 4), [Edge(0, 5)]) == 1;
    assert [Edge(1, 4)][..0] == [];
    IsCutAtMoved(p, Edge(1, 4), Edge(0, 5), 4, 0);
  }

  /** As written, the first call in layer 1 stores layer 0's list into
      layer 1's, so the second vertex placed in layer 1 compares against the
      edge (0, 5) twice and counts its one crossing as two. The corrected
      rule counts it once, the number of crossings the placement creates. */
  lemma AliasingCountsTwice()
    ensures var layerOf := [0, 0, 0, 1, 1, 1];
            var p := [0, 1, 0, 0, 0, 2];
            var st0 := [[Edge(0, 5)], []];
            var first := CrossingListsAsWritten(st0, 1, [], layerOf);
            var second := CrossingListsAsWritten(first.1, 1, [Edge(1, 4)], layerOf);
            && ByLayer(st0, layerOf) && !ByLayer(first.1, layerOf)
            && second.0 == [Edge(0, 5), Edge(0, 5)]
            && CalculateCrossings(p, layerOf, 4, 0, [Edge(1, 4)], second.0) == 2
            && CalculateCrossings(p, layerOf, 4, 0, [Edge(1, 4)], Others(st0, 1)) == 1
            && Cut(p[4 := 0], Edge(1, 4), Edge(0, 5))
  {
    var layerOf := [0, 0, 0, 1, 1, 1];
    var p := [0, 1, 0, 0, 0, 2];
    var st0 := [[Edge(0, 5)], []];
    var e := Edge(0, 5);
    assert Others(st0, 1) == [e];
    var first := CrossingListsAsWritten(st0, 1, [], layerOf);
    assert first.1 == [[e], [e]];
    assert e in first.1[1];
    assert Others(first.1, 1) == [e] + [e];
    OneCrossing(p, layerOf);
    CalculateCrossingsAppend(p, layerOf, 4, 0, [Edge(1, 4)], [e], [e]);
  }
}
