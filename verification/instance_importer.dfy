/** GDInstanceImporter.importInstance: reading an instance file into the
    fields of a GDInstance.  The file is modelled after line splitting and
    integer parsing, as a sequence of lines of integer tokens; an empty line
    stands for a line whose first token does not parse.

    The file is: a header "n m nl k"; m edge lines "s t"; nl layer lines
    listing the vertices of layers 0, 1, ...; k long-edge lines listing the
    vertices of a long edge's chain from source to target.  Vertex ids in the
    file are 1-based and become 0-based. */
module InstanceImporter {
  import opened Sums
  import opened GraphModel

  /** One line of the file, split at spaces and parsed. */
  type Line = seq<int>

  /** Why importInstance stops with an exception: a line the reader does not
      have (readLine returns null), a line with too few tokens or none that
      parses, a negative size handed to a collection constructor, a layer
      line naming a vertex outside the layer table; then, in the GDInstance
      constructor, no layer 0, an empty chain, an edge line whose source has
      no layerOfVertex slot, a long-edge line with an end that has no
      adjacency entry. */
  datatype ImportError =
    | MissingLine(index: nat)
    | MalformedLine(index: nat)
    | NegativeSize
    | VertexOutOfRange(index: nat)
    | NoLayers
    | EmptyChain
    | SourceOutOfRange(index: nat)
    | MissingAdjacency(index: nat)

  /** An error of the GDInstance constructor rather than of a reader. */
  predicate ConstructorError(e: ImportError)
  {
    e.NoLayers? || e.EmptyChain? || e.SourceOutOfRange? || e.MissingAdjacency?
  }

  datatype Outcome<T> = Ok(value: T) | Err(error: ImportError)

  /** Whether every lookup of the GDInstance constructor finds its entry. */
  datatype Check = Pass | Fail(error: ImportError)

  // ---------------------------------------------------------------------
  // Edge lines

  /** The edge "s t", made 0-based. */
  function EdgeOfLine(t: Line): Edge
    requires |t| >= 2
  {
    Edge(t[0] - 1, t[1] - 1)
  }

  /** The `count` edge lines starting at line `from`, in file order. */
  function ReadEdges(lines: seq<Line>, from: nat, count: nat): (r: Outcome<seq<Edge>>)
    requires from <= |lines|
    ensures r.Ok? <==> from + count <= |lines| && forall i :: from <= i < from + count ==> |lines[i]| >= 2
    ensures r.Ok? ==> (|r.value| == count &&
      forall i :: from <= i < from + count ==> r.value[i - from] == EdgeOfLine(lines[i]))
    ensures r.Err? ==> (r.error == MissingLine(|lines|) ||
      (r.error.MalformedLine? && from <= r.error.index < |lines| && |lines[r.error.index]| < 2))
  {
    if count == 0 then Ok([])
    else
      match ReadEdges(lines, from, count - 1)
      case Err(e) => Err(e)
      case Ok(E) =>
        var i := from + count - 1;
        if i >= |lines| then Err(MissingLine(i))
        else if |lines[i]| < 2 then Err(MalformedLine(i))
        else Ok(E + [EdgeOfLine(lines[i])])
  }

  /** updateAdjacentListOfVertex: the source's SOURCE and ALL lists gain the
      target, then the target's TARGET and ALL lists gain the source. */
  function AddEdgeAdjacency(adj: map<int, Adjacency>, e: Edge): map<int, Adjacency>
  {
    var a := Lookup(adj, e.source);
    var adj1 := adj[e.source := Adjacency(a.source + [e.target], a.target, a.all + [e.target])];
    var b := Lookup(adj1, e.target);
    adj1[e.target := Adjacency(b.source, b.target + [e.source], b.all + [e.source])]
  }

  /** The adjacency map after every edge of E, in order, went through
      updateAdjacentListOfVertex: exactly the endpoints have an entry, and
      each entry holds the lists GraphModel derives from E. */
  function AdjacencyOf(E: seq<Edge>): (adj: map<int, Adjacency>)
    ensures forall v :: v in adj <==> v in Endpoints(E)
    ensures forall v :: Lookup(adj, v) == DerivedAdjacency(E, v)
  {
    if |E| == 0 then map[]
    else
      var E0 := E[..|E| - 1];
      var e := E[|E| - 1];
      var adj0 := AdjacencyOf(E0);
      var adj := AddEdgeAdjacency(adj0, e);
      assert forall v :: Lookup(adj, v) == DerivedAdjacency(E, v) by {
        forall v ensures Lookup(adj, v) == DerivedAdjacency(E, v) {
          assert Lookup(adj0, v) == DerivedAdjacency(E0, v);
        }
      }
      adj
  }

  // ---------------------------------------------------------------------
  // Layer lines

  /** The layer table being filled: layerOfVertex and listOfVerticesInLayer. */
  datatype Layers = Layers(layerOf: seq<int>, lists: map<int, seq<int>>)

  /** A file's vertex ids made 0-based. */
  function Decremented(t: seq<int>): (r: seq<int>)
    ensures |r| == |t| && forall j :: 0 <= j < |t| ==> r[j] == t[j] - 1
  {
    seq(|t|, j requires 0 <= j < |t| => t[j] - 1)
  }

  function ListOf(lists: map<int, seq<int>>, layer: int): seq<int>
  {
    if layer in lists then lists[layer] else []
  }

  /** Every token of t names one of the n vertices. */
  predicate TokensInRange(t: Line, n: int)
  {
    forall j :: 0 <= j < |t| ==> 1 <= t[j] <= n
  }

  /** layerOfVertex after updateLayers(layer, t[j] - 1) for the first `count`
      tokens of a line: the vertices they name get the layer, the others keep
      theirs. */
  function AssignLayer(layerOf: seq<int>, layer: int, t: Line, count: nat): (r: seq<int>)
    requires count <= |t| && TokensInRange(t, |layerOf|)
    ensures |r| == |layerOf|
    ensures forall v :: 0 <= v < |layerOf| ==> r[v] == (if v + 1 in t[..count] then layer else layerOf[v])
  {
    if count == 0 then layerOf
    else
      assert t[..count] == t[..count - 1] + [t[count - 1]];
      AssignLayer(layerOf, layer, t, count - 1)[t[count - 1] - 1 := layer]
  }

  /** updateLayers for every token of layer line `index`: the layer's list
      gains the line's vertices, the vertices get the layer, and a vertex
      outside the table stops the import. */
  function PlaceTokens(st: Layers, layer: int, t: Line, index: nat): (r: Outcome<Layers>)
  {
    if TokensInRange(t, |st.layerOf|) then
      Ok(Layers(AssignLayer(st.layerOf, layer, t, |t|), st.lists[layer := ListOf(st.lists, layer) + Decremented(t)]))
    else Err(VertexOutOfRange(index))
  }

  /** A layer line is non-empty and names vertices 1..n only. */
  predicate LayerLineOk(t: Line, n: int)
  {
    |t| > 0 && TokensInRange(t, n)
  }

  /** What PlaceTokens does to the layer lists, when it succeeds. */
  lemma PlaceTokensLists(st: Layers, layer: int, t: Line, index: nat)
    requires PlaceTokens(st, layer, t, index).Ok?
    ensures PlaceTokens(st, layer, t, index).value.lists == st.lists[layer := ListOf(st.lists, layer) + Decremented(t)]
  {
  }

  /** What PlaceTokens does to the layer table, when it succeeds. */
  lemma PlaceTokensLayerOf(st: Layers, layer: int, t: Line, index: nat, v: int)
    requires PlaceTokens(st, layer, t, index).Ok? && 0 <= v < |st.layerOf|
    ensures |PlaceTokens(st, layer, t, index).value.layerOf| == |st.layerOf|
    ensures PlaceTokens(st, layer, t, index).value.layerOf[v] == (if v + 1 in t then layer else st.layerOf[v])
  {
    assert t[..|t|] == t;
  }

  /** new int[n]: n zeros. */
  function Zeros(n: nat): (r: seq<int>)
    ensures |r| == n && forall v :: 0 <= v < n ==> r[v] == 0
  {
    if n == 0 then [] else Zeros(n - 1) + [0]
  }

  /** The `count` layer lines starting at line `from`, over a table of n
      vertices that all start in layer 0. */
  function ReadLayers(lines: seq<Line>, from: nat, count: nat, n: nat): (r: Outcome<Layers>)
    requires from <= |lines|
    ensures r.Ok? ==> from + count <= |lines| && |r.value.layerOf| == n
  {
    if count == 0 then Ok(Layers(Zeros(n), map[]))
    else
      match ReadLayers(lines, from, count - 1, n)
      case Err(e) => Err(e)
      case Ok(st) =>
        var i := from + count - 1;
        if i >= |lines| then Err(MissingLine(i))
        else if |lines[i]| == 0 then Err(MalformedLine(i))
        else PlaceTokens(st, count - 1, lines[i], i)
  }

  /** One layer line read after the first count - 1: the result of
      PlaceTokens on the table so far. */
  lemma ReadLayersStep(lines: seq<Line>, from: nat, count: nat, c0: nat, n: nat, i: nat)
    requires from <= |lines| && count > 0 && c0 == count - 1 && i == from + c0
    requires ReadLayers(lines, from, c0, n).Ok? && i < |lines| && |lines[i]| > 0
    ensures ReadLayers(lines, from, count, n) == PlaceTokens(ReadLayers(lines, from, c0, n).value, c0, lines[i], i)
  {
  }

  /** A successful read of `count` layer lines read the first count - 1
      successfully, and line from + count - 1 is present and non-empty. */
  lemma ReadLayersPrefix(lines: seq<Line>, from: nat, count: nat, c0: nat, n: nat, i: nat)
    requires from <= |lines| && count > 0 && c0 == count - 1 && i == from + c0
    requires ReadLayers(lines, from, count, n).Ok?
    ensures ReadLayers(lines, from, c0, n).Ok? && i < |lines| && |lines[i]| > 0
  {
  }

  /** Once the first count - 1 layer lines are read, the last one is read
      exactly when it is present and well-formed, and otherwise blamed. */
  lemma ReadLayersLast(lines: seq<Line>, from: nat, count: nat, c0: nat, n: nat, i: nat)
    requires from <= |lines| && count > 0 && c0 == count - 1 && i == from + c0
    requires ReadLayers(lines, from, c0, n).Ok?
    ensures ReadLayers(lines, from, count, n).Ok? <==> i < |lines| && LayerLineOk(lines[i], n)
    ensures ReadLayers(lines, from, count, n).Err? ==>
      var e := ReadLayers(lines, from, count, n).error;
      e == MissingLine(|lines|) ||
      (e.MalformedLine? && e.index == i < |lines| && |lines[i]| == 0) ||
      (e.VertexOutOfRange? && e.index == i < |lines| && !LayerLineOk(lines[i], n))
  {
    if i < |lines| && |lines[i]| > 0 {
      ReadLayersStep(lines, from, count, c0, n, i);
      assert PlaceTokens(ReadLayers(lines, from, c0, n).value, c0, lines[i], i).Ok? <==> LayerLineOk(lines[i], n);
    }
  }

  /** The layer lines are read without error exactly when each is present,
      non-empty and names vertices 1..n only; otherwise the error names the
      first line at fault. */
  lemma {:induction false} ReadLayersOk(lines: seq<Line>, from: nat, count: nat, n: nat)
    requires from <= |lines|
    ensures ReadLayers(lines, from, count, n).Ok? <==>
      from + count <= |lines| && forall i :: from <= i < from + count ==> LayerLineOk(lines[i], n)
    ensures ReadLayers(lines, from, count, n).Err? ==>
      var e := ReadLayers(lines, from, count, n).error;
      e == MissingLine(|lines|) ||
      (e.MalformedLine? && from <= e.index < |lines| && |lines[e.index]| == 0) ||
      (e.VertexOutOfRange? && from <= e.index < |lines| && !LayerLineOk(lines[e.index], n))
  {
    if count > 0 {
      var c0: nat := count - 1;
      ReadLayersOk(lines, from, c0, n);
      var i: nat := from + c0;
      if ReadLayers(lines, from, c0, n).Ok? {
        ReadLayersLast(lines, from, count, c0, n, i);
      } else {
        assert from + c0 > |lines| || !(forall i' :: from <= i' < from + c0 ==> LayerLineOk(lines[i'], n));
      }
    }
  }

  /** The first line of a layer that has no list yet becomes its list. */
  lemma NewLayerList(st: Layers, layer: int, t: Line, index: nat)
    requires layer !in st.lists && PlaceTokens(st, layer, t, index).Ok?
    ensures PlaceTokens(st, layer, t, index).value.lists == st.lists[layer := Decremented(t)]
  {
    assert [] + Decremented(t) == Decremented(t);
  }

  /** Giving the next layer its list keeps the keys a prefix of the layers. */
  lemma ListsExtend(lists0: map<int, seq<int>>, lists: map<int, seq<int>>, c0: int, x: seq<int>)
    requires 0 <= c0 && forall L :: L in lists0 <==> 0 <= L < c0
    requires lists == lists0[c0 := x]
    ensures forall L :: L in lists <==> 0 <= L < c0 + 1
    ensures forall L :: 0 <= L < c0 ==> lists[L] == lists0[L]
    ensures lists[c0] == x
  {
    forall L ensures L in lists <==> 0 <= L < c0 + 1 {
      assert L in lists <==> L == c0 || L in lists0;
    }
  }

  /** Reading layer line from + c0 gives layer c0, which had no list yet,
      the line's vertices as its list. */
  lemma ReadLayersListsStep(lines: seq<Line>, from: nat, count: nat, c0: nat, n: nat, i: nat)
    requires from <= |lines| && count > 0 && c0 == count - 1 && i == from + c0
    requires ReadLayers(lines, from, count, n).Ok?
    requires ReadLayers(lines, from, c0, n).Ok? && c0 !in ReadLayers(lines, from, c0, n).value.lists
    ensures i < |lines|
    ensures ReadLayers(lines, from, count, n).value.lists ==
      ReadLayers(lines, from, c0, n).value.lists[c0 := Decremented(lines[i])]
  {
    ReadLayersPrefix(lines, from, count, c0, n, i);
    ReadLayersStep(lines, from, count, c0, n, i);
    NewLayerList(ReadLayers(lines, from, c0, n).value, c0, lines[i], i);
  }

  /** After the layer lines exactly the layers 0..count - 1 have a list. */
  lemma {:induction false} ReadLayersKeys(lines: seq<Line>, from: nat, count: nat, n: nat)
    requires from <= |lines| && ReadLayers(lines, from, count, n).Ok?
    ensures forall L :: L in ReadLayers(lines, from, count, n).value.lists <==> 0 <= L < count
  {
    if count > 0 {
      var c0: nat := count - 1;
      var i: nat := from + c0;
      ReadLayersPrefix(lines, from, count, c0, n, i);
      ReadLayersKeys(lines, from, c0, n);
      ReadLayersListsStep(lines, from, count, c0, n, i);
      ListsExtend(ReadLayers(lines, from, c0, n).value.lists, ReadLayers(lines, from, count, n).value.lists,
                  c0, Decremented(lines[i]));
    }
  }

  /** Layer c0 getting the list of line from + c0 extends the lists of the
      layers before it. */
  lemma ListsGrow(lines: seq<Line>, from: nat, c0: nat, lists0: map<int, seq<int>>, lists: map<int, seq<int>>)
    requires from + c0 < |lines|
    requires forall L :: 0 <= L < c0 ==> L in lists0 && lists0[L] == Decremented(lines[from + L])
    requires lists == lists0[c0 := Decremented(lines[from + c0])]
    ensures forall L :: 0 <= L < c0 + 1 ==> L in lists && lists[L] == Decremented(lines[from + L])
  {
    forall L | 0 <= L < c0 + 1 ensures L in lists && lists[L] == Decremented(lines[from + L]) {
      if L < c0 {
        assert lists[L] == lists0[L];
      }
    }
  }

  /** After the layer lines, layer L lists the vertices of line from + L in
      file order. */
  lemma {:induction false} ReadLayersLists(lines: seq<Line>, from: nat, count: nat, n: nat)
    requires from <= |lines| && ReadLayers(lines, from, count, n).Ok?
    ensures forall L :: 0 <= L < count ==>
      L in ReadLayers(lines, from, count, n).value.lists &&
      ReadLayers(lines, from, count, n).value.lists[L] == Decremented(lines[from + L])
  {
    if count > 0 {
      var c0: nat := count - 1;
      var i: nat := from + c0;
      assert ReadLayers(lines, from, c0, n).Ok? && i < |lines| by {
        ReadLayersPrefix(lines, from, count, c0, n, i);
      }
      var lists0 := ReadLayers(lines, from, c0, n).value.lists;
      var lists := ReadLayers(lines, from, count, n).value.lists;
      assert lists == lists0[c0 := Decremented(lines[i])] by {
        ReadLayersKeys(lines, from, c0, n);
        ReadLayersListsStep(lines, from, count, c0, n, i);
      }
      assert forall L :: 0 <= L < c0 ==> L in lists0 && lists0[L] == Decremented(lines[from + L]) by {
        ReadLayersLists(lines, from, c0, n);
      }
      ListsGrow(lines, from, c0, lists0, lists);
    }
  }

  /** After the layer lines, a vertex is in the last layer whose line names
      it, and in layer 0 when no line does. */
  lemma {:induction false} ReadLayersLayerOf(lines: seq<Line>, from: nat, count: nat, n: nat, v: int, L: int)
    requires from <= |lines| && ReadLayers(lines, from, count, n).Ok? && 0 <= v < n
    requires L == ReadLayers(lines, from, count, n).value.layerOf[v]
    ensures L == 0 || (0 < L < count && v + 1 in lines[from + L])
    ensures forall i :: from + L < i < from + count ==> v + 1 !in lines[i]
  {
    if count > 0 {
      var c0: nat := count - 1;
      var i: nat := from + c0;
      ReadLayersPrefix(lines, from, count, c0, n, i);
      ReadLayersStep(lines, from, count, c0, n, i);
      var L0 := ReadLayers(lines, from, c0, n).value.layerOf[v];
      ReadLayersLayerOf(lines, from, c0, n, v, L0);
      PlaceTokensLayerOf(ReadLayers(lines, from, c0, n).value, c0, lines[i], i, v);
    }
  }

  // ---------------------------------------------------------------------
  // Long-edge lines

  /** What the long-edge lines build: listOfDummyVertices, listOfLongEdges,
      listOfShortEdgesOfLongEdge and the dummy-edge counter. */
  datatype Chains = Chains(dummies: set<int>, longEdges: seq<Edge>, chains: map<Edge, seq<Edge>>, numDummyEdges: int)

  /** The long edge of a chain line: its first vertex to its last. */
  function LongEdgeOfLine(t: Line): Edge
    requires |t| > 0
  {
    Edge(t[0] - 1, t[|t| - 1] - 1)
  }

  /** The short edges of a chain line, between consecutive vertices. */
  function ChainOfLine(t: Line): (c: seq<Edge>)
    requires |t| > 0
    ensures |c| == |t| - 1
    ensures forall k :: 0 <= k < |c| ==> c[k] == Edge(t[k] - 1, t[k + 1] - 1)
  {
    if |t| == 1 then []
    else
      var c0 := ChainOfLine(t[..|t| - 1]);
      c0 + [Edge(t[|t| - 2] - 1, t[|t| - 1] - 1)]
  }

  /** The vertices a chain line marks as dummies before its long edge's
      target is taken out again: every vertex after the first. */
  function TargetsOfLine(t: Line): set<int>
  {
    set j | 1 <= j < |t| :: t[j] - 1
  }

  /** The `count` long-edge lines starting at line `from`. */
  function ReadChains(lines: seq<Line>, from: nat, count: nat): (r: Outcome<Chains>)
    requires from <= |lines|
    ensures r.Ok? ==> from + count <= |lines|
  {
    if count == 0 then Ok(Chains({}, [], map[], 0))
    else
      match ReadChains(lines, from, count - 1)
      case Err(e) => Err(e)
      case Ok(ch) =>
        var i := from + count - 1;
        if i >= |lines| then Err(MissingLine(i))
        else if |lines[i]| == 0 then Err(MalformedLine(i))
        else Ok(AddChainLine(ch, lines[i]))
  }

  /** One long-edge line: its vertices after the first become dummies, then
      its long edge's target is taken out again; the long edge is appended
      and gets the line's chain, replacing any earlier one; the chain's edges
      are counted. */
  function AddChainLine(ch: Chains, t: Line): Chains
    requires |t| > 0
  {
    var le := LongEdgeOfLine(t);
    Chains((ch.dummies + TargetsOfLine(t)) - {le.target},
           ch.longEdges + [le],
           ch.chains[le := ChainOfLine(t)],
           ch.numDummyEdges + |ChainOfLine(t)|)
  }

  /** A successful read of `count` long-edge lines read the first count - 1
      successfully, and line from + count - 1 is present and non-empty. */
  lemma ReadChainsPrefix(lines: seq<Line>, from: nat, count: nat, c0: nat, i: nat)
    requires from <= |lines| && count > 0 && c0 == count - 1 && i == from + c0
    requires ReadChains(lines, from, count).Ok?
    ensures ReadChains(lines, from, c0).Ok? && i < |lines| && |lines[i]| > 0
  {
  }

  /** One long-edge line read after the first count - 1, field by field. */
  lemma ReadChainsStep(lines: seq<Line>, from: nat, count: nat, c0: nat, i: nat)
    requires from <= |lines| && count > 0 && c0 == count - 1 && i == from + c0
    requires ReadChains(lines, from, c0).Ok? && i < |lines| && |lines[i]| > 0
    ensures ReadChains(lines, from, count).Ok?
    ensures var ch0 := ReadChains(lines, from, c0).value;
      var ch := ReadChains(lines, from, count).value;
      var le := LongEdgeOfLine(lines[i]);
      ch.dummies == (ch0.dummies + TargetsOfLine(lines[i])) - {le.target} &&
      ch.longEdges == ch0.longEdges + [le] &&
      ch.chains == ch0.chains[le := ChainOfLine(lines[i])] &&
      ch.numDummyEdges == ch0.numDummyEdges + |lines[i]| - 1
  {
  }

  /** The long-edge lines are read without error exactly when each is
      present and non-empty; otherwise the error names the first line at
      fault. */
  lemma {:induction false} ReadChainsOk(lines: seq<Line>, from: nat, count: nat)
    requires from <= |lines|
    ensures ReadChains(lines, from, count).Ok? <==>
      from + count <= |lines| && forall i :: from <= i < from + count ==> |lines[i]| > 0
    ensures ReadChains(lines, from, count).Err? ==>
      var e := ReadChains(lines, from, count).error;
      e == MissingLine(|lines|) || (e.MalformedLine? && from <= e.index < |lines| && |lines[e.index]| == 0)
  {
    if count > 0 {
      var c0: nat := count - 1;
      var i: nat := from + c0;
      ReadChainsOk(lines, from, c0);
      if ReadChains(lines, from, c0).Ok? && i < |lines| && |lines[i]| > 0 {
        ReadChainsStep(lines, from, count, c0, i);
      }
    }
  }

  /** Long edge L runs from the first to the last vertex of line from + L. */
  lemma {:induction false} ReadChainsLongEdges(lines: seq<Line>, from: nat, count: nat)
    requires from <= |lines| && ReadChains(lines, from, count).Ok?
    ensures from + count <= |lines|
    ensures |ReadChains(lines, from, count).value.longEdges| == count
    ensures forall L :: 0 <= L < count ==>
      |lines[from + L]| > 0 && ReadChains(lines, from, count).value.longEdges[L] == LongEdgeOfLine(lines[from + L])
  {
    if count > 0 {
      var c0: nat := count - 1;
      var i: nat := from + c0;
      ReadChainsPrefix(lines, from, count, c0, i);
      ReadChainsLongEdges(lines, from, c0);
      ReadChainsStep(lines, from, count, c0, i);
      var E0 := ReadChains(lines, from, c0).value.longEdges;
      var E := ReadChains(lines, from, count).value.longEdges;
      ReadChainsOk(lines, from, count);
      forall L | 0 <= L < count ensures |lines[from + L]| > 0 && E[L] == LongEdgeOfLine(lines[from + L]) {
        var j := from + L;
        assert |lines[j]| > 0;
        if L < c0 {
          assert E[L] == E0[L];
        }
      }
    }
  }

  /** Exactly the long edges have a chain. */
  lemma {:induction false} ReadChainsKeys(lines: seq<Line>, from: nat, count: nat)
    requires from <= |lines| && ReadChains(lines, from, count).Ok?
    ensures var ch := ReadChains(lines, from, count).value;
      forall e :: e in ch.chains <==> e in ch.longEdges
  {
    if count > 0 {
      var c0: nat := count - 1;
      var i: nat := from + c0;
      ReadChainsPrefix(lines, from, count, c0, i);
      ReadChainsKeys(lines, from, c0);
      ReadChainsStep(lines, from, count, c0, i);
      var ch0 := ReadChains(lines, from, c0).value;
      var ch := ReadChains(lines, from, count).value;
      var le := LongEdgeOfLine(lines[i]);
      forall e ensures e in ch.chains <==> e in ch.longEdges {
        assert e in ch.longEdges <==> e in ch0.longEdges || e == le;
      }
    }
  }

  /** A long edge's chain is the one of the last line that names it: a
      later line with the same long edge replaces the list. */
  lemma {:induction false} ReadChainsChains(lines: seq<Line>, from: nat, count: nat)
    requires from <= |lines| && ReadChains(lines, from, count).Ok?
    ensures from + count <= |lines|
    ensures forall i :: from <= i < from + count ==> |lines[i]| > 0
    ensures var ch := ReadChains(lines, from, count).value;
      |ch.longEdges| == count &&
      forall L :: 0 <= L < count && (forall L' :: L < L' < count ==> ch.longEdges[L'] != ch.longEdges[L]) ==>
        ch.longEdges[L] in ch.chains && ch.chains[ch.longEdges[L]] == ChainOfLine(lines[from + L])
  {
    ReadChainsOk(lines, from, count);
    assert |ReadChains(lines, from, count).value.longEdges| == count by {
      ReadChainsLongEdges(lines, from, count);
    }
    var les := ReadChains(lines, from, count).value.longEdges;
    forall L | 0 <= L < count && (forall L' :: L < L' < count ==> les[L'] != les[L])
      ensures var ch := ReadChains(lines, from, count).value;
        ch.longEdges[L] in ch.chains && ch.chains[ch.longEdges[L]] == ChainOfLine(lines[from + L])
    {
      ChainOfLastLine(lines, from, count, L);
    }
  }

  /** The chain kept for the long edge of line from + L, when no later line
      has the same long edge, is that line's chain. */
  lemma {:induction false} ChainOfLastLine(lines: seq<Line>, from: nat, count: nat, L: nat)
    requires from <= |lines| && ReadChains(lines, from, count).Ok? && L < count
    requires |ReadChains(lines, from, count).value.longEdges| == count
    requires var les := ReadChains(lines, from, count).value.longEdges;
      forall L' :: L < L' < count ==> les[L'] != les[L]
    ensures from + L < |lines| && |lines[from + L]| > 0
    ensures var ch := ReadChains(lines, from, count).value;
      ch.longEdges[L] in ch.chains && ch.chains[ch.longEdges[L]] == ChainOfLine(lines[from + L])
    decreases count
  {
    var c0: nat := count - 1;
    var i: nat := from + c0;
    ReadChainsPrefix(lines, from, count, c0, i);
    ReadChainsStep(lines, from, count, c0, i);
    var ch0 := ReadChains(lines, from, c0).value;
    var ch := ReadChains(lines, from, count).value;
    if L < c0 {
      forall L' | L < L' < c0 ensures ch0.longEdges[L'] != ch0.longEdges[L] {
        assert ch0.longEdges[L'] == ch.longEdges[L'] && ch0.longEdges[L] == ch.longEdges[L];
      }
      ChainOfLastLine(lines, from, c0, L);
      assert ch.longEdges[c0] != ch.longEdges[L];
      assert ch.longEdges[L] == ch0.longEdges[L];
    }
  }

  /** The number of chain edges of the long-edge line from + L. */
  function ChainLength(lines: seq<Line>, from: nat): int -> int
  {
    L => if 0 <= from + L < |lines| && |lines[from + L]| > 0 then |lines[from + L]| - 1 else 0
  }

  /** numDummyEdges counts every chain edge of every long-edge line. */
  lemma {:induction false} ReadChainsCount(lines: seq<Line>, from: nat, count: nat)
    requires from <= |lines| && ReadChains(lines, from, count).Ok?
    ensures ReadChains(lines, from, count).value.numDummyEdges == Sum(0, count, ChainLength(lines, from))
  {
    if count > 0 {
      var c0: nat := count - 1;
      var i: nat := from + c0;
      ReadChainsPrefix(lines, from, count, c0, i);
      ReadChainsCount(lines, from, c0);
      ReadChainsStep(lines, from, count, c0, i);
    }
  }

  /** Long-edge line from + L lists v after its first vertex. */
  predicate Marks(lines: seq<Line>, from: nat, L: int, v: int)
  {
    0 <= from + L < |lines| && v in TargetsOfLine(lines[from + L])
  }

  /** A vertex ends up a dummy exactly when some long-edge line lists it
      after its first vertex and neither that line nor any later one ends
      at it. */
  lemma {:induction false} ReadChainsDummies(lines: seq<Line>, from: nat, count: nat, v: int)
    requires from <= |lines| && ReadChains(lines, from, count).Ok?
    ensures var ch := ReadChains(lines, from, count).value;
      |ch.longEdges| == count &&
      (v in ch.dummies <==>
        exists L :: 0 <= L < count && Marks(lines, from, L, v) &&
          forall L' :: L <= L' < count ==> v != ch.longEdges[L'].target)
  {
    ReadChainsLongEdges(lines, from, count);
    if count > 0 {
      var c0: nat := count - 1;
      var i: nat := from + c0;
      ReadChainsPrefix(lines, from, count, c0, i);
      ReadChainsDummies(lines, from, c0, v);
      ReadChainsStep(lines, from, count, c0, i);
      var ch0 := ReadChains(lines, from, c0).value;
      var ch := ReadChains(lines, from, count).value;
      var x := LongEdgeOfLine(lines[i]).target;
      assert ch.longEdges[c0].target == x;
      assert forall L' :: 0 <= L' < c0 ==> ch0.longEdges[L'] == ch.longEdges[L'];
      if v in ch.dummies {
        if v in TargetsOfLine(lines[i]) {
          assert Marks(lines, from, c0, v);
        } else {
          var L :| 0 <= L < c0 && Marks(lines, from, L, v) &&
            forall L' :: L <= L' < c0 ==> v != ch0.longEdges[L'].target;
          assert forall L' :: L <= L' < count ==> v != ch.longEdges[L'].target;
        }
      }
      if exists L :: 0 <= L < count && Marks(lines, from, L, v) &&
                     forall L' :: L <= L' < count ==> v != ch.longEdges[L'].target
      {
        var L :| 0 <= L < count && Marks(lines, from, L, v) &&
          forall L' :: L <= L' < count ==> v != ch.longEdges[L'].target;
        assert v != x;
        if L < c0 {
          assert v in ch0.dummies;
        }
      }
    }
  }

  // ---------------------------------------------------------------------
  // The whole file

  /** The header's counts: vertices, edges, layers, long edges. */
  datatype Header = Header(numVertices: int, numEdges: int, numLayers: int, numLongEdges: int)

  function HeaderOf(lines: seq<Line>): Header
    requires |lines| > 0 && |lines[0]| >= 4
  {
    Header(lines[0][0], lines[0][1], lines[0][2], lines[0][3])
  }

  /** The first layer line. */
  function LayerStart(h: Header): int
  {
    1 + h.numEdges
  }

  /** The first long-edge line. */
  function ChainStart(h: Header): int
  {
    1 + h.numEdges + h.numLayers
  }

  /** importInstance: the header, then the edge, layer and long-edge lines,
      each reader failing as the Java reader fails, and finally the
      GDInstance constructor over what they collected. */
  function Import(lines: seq<Line>): (r: Outcome<Instance>)
  {
    if |lines| == 0 then Err(MissingLine(0))
    else if |lines[0]| < 4 then Err(MalformedLine(0))
    else
      var h := HeaderOf(lines);
      if h.numVertices < 0 || h.numEdges < 0 then Err(NegativeSize)
      else
        match ReadEdges(lines, 1, h.numEdges)
        case Err(e) => Err(e)
        case Ok(E) =>
          if h.numLayers < 0 then Err(NegativeSize)
          else
            match ReadLayers(lines, LayerStart(h), h.numLayers, h.numVertices)
            case Err(e) => Err(e)
            case Ok(lay) =>
              if h.numLongEdges < 0 then Err(NegativeSize)
              else
                match ReadChains(lines, ChainStart(h), h.numLongEdges)
                case Err(e) => Err(e)
                case Ok(ch) => NewInstance(h, E, lay, ch)
  }

  /** The position of the first edge whose source has no slot in a
      layerOfVertex table of n entries, or |E| when there is none. */
  function FirstBadSource(E: seq<Edge>, n: int): (r: nat)
    ensures r <= |E|
    ensures forall i :: 0 <= i < r ==> 0 <= E[i].source < n
    ensures r < |E| ==> !(0 <= E[r].source < n)
  {
    if |E| == 0 then 0
    else if !(0 <= E[0].source < n) then 0
    else 1 + FirstBadSource(E[1..], n)
  }

  /** The position of the first long edge with an endpoint outside vs, or
      |les| when there is none. */
  function FirstUnlinked(les: seq<Edge>, vs: set<int>): (r: nat)
    ensures r <= |les|
    ensures forall L :: 0 <= L < r ==> les[L].source in vs && les[L].target in vs
    ensures r < |les| ==> !(les[r].source in vs && les[r].target in vs)
  {
    if |les| == 0 then 0
    else if !(les[0].source in vs && les[0].target in vs) then 0
    else 1 + FirstUnlinked(les[1..], vs)
  }

  /** Every chain has a first and a last edge. */
  predicate ChainsNonEmpty(chains: map<Edge, seq<Edge>>)
  {
    forall le :: le in chains ==> |chains[le]| > 0
  }

  /** Every edge's source has a slot in a layerOfVertex table of n entries. */
  predicate SourcesInRange(E: seq<Edge>, n: int)
  {
    forall i :: 0 <= i < |E| ==> 0 <= E[i].source < n
  }

  /** Both endpoints of every long edge are in vs. */
  predicate EndsIn(les: seq<Edge>, vs: set<int>)
  {
    forall L :: 0 <= L < |les| ==> les[L].source in vs && les[L].target in vs
  }

  /** The lookups of new GDInstance(...): the constructor reads layer 0's
      list, the first and last edge of every chain, layerOfVertex at every
      short edge's source, and the adjacency entry of both endpoints of every
      long edge, in that order; the first of these that is missing throws.
      The chains are visited in hash order, so an empty chain is reported
      without a line; the other two errors name the line of the first edge
      at fault. */
  function ConstructorCheck(h: Header, E: seq<Edge>, lay: Layers, ch: Chains): (r: Check)
    requires h.numEdges >= 0 && h.numLayers >= 0
    ensures r.Pass? <==>
      0 in lay.lists && ChainsNonEmpty(ch.chains) && SourcesInRange(E, h.numVertices) &&
      EndsIn(ch.longEdges, Endpoints(E))
  {
    if 0 !in lay.lists then Fail(NoLayers)
    else if exists le :: le in ch.chains && |ch.chains[le]| == 0 then Fail(EmptyChain)
    else if FirstBadSource(E, h.numVertices) < |E| then
      Fail(SourceOutOfRange(1 + FirstBadSource(E, h.numVertices)))
    else if FirstUnlinked(ch.longEdges, Endpoints(E)) < |ch.longEdges| then
      Fail(MissingAdjacency(ChainStart(h) + FirstUnlinked(ch.longEdges, Endpoints(E))))
    else Pass
  }

  /** new GDInstance(...): the instance assembled from what the readers
      collected, once every lookup of the constructor has found its entry. */
  function NewInstance(h: Header, E: seq<Edge>, lay: Layers, ch: Chains): (r: Outcome<Instance>)
    requires h.numEdges >= 0 && h.numLayers >= 0
    ensures r.Ok? <==>
      0 in lay.lists && ChainsNonEmpty(ch.chains) && SourcesInRange(E, h.numVertices) &&
      EndsIn(ch.longEdges, Endpoints(E))
    ensures r.Ok? ==> r.value == Assemble(h, E, lay, ch)
    ensures r.Err? ==> ConstructorCheck(h, E, lay, ch) == Fail(r.error)
  {
    match ConstructorCheck(h, E, lay, ch)
    case Fail(e) => Err(e)
    case Pass => Ok(Assemble(h, E, lay, ch))
  }

  /** The GDInstance built from what the readers collected. */
  function Assemble(h: Header, E: seq<Edge>, lay: Layers, ch: Chains): Instance
  {
    var all := Endpoints(E);
    var reals := all - ch.dummies;
    Instance(h.numVertices, |reals|, |ch.dummies|, h.numEdges, h.numEdges + h.numLongEdges - ch.numDummyEdges,
             h.numLongEdges, ch.numDummyEdges, h.numLayers,
             all, reals, ch.dummies, E, ch.longEdges, AdjacencyOf(E), ch.chains, lay.lists, lay.layerOf)
  }

  /** The shape of a file importInstance reads to the end: a header of four
      non-negative counts n m nl k followed by at least m + nl + k lines, the
      edge lines with two tokens, the layer lines non-empty and naming
      vertices 1..n only, the long-edge lines non-empty. */
  predicate FileReadable(lines: seq<Line>)
  {
    |lines| > 0 && |lines[0]| >= 4 &&
    var h := HeaderOf(lines);
    h.numVertices >= 0 && h.numEdges >= 0 && h.numLayers >= 0 && h.numLongEdges >= 0 &&
    ChainStart(h) + h.numLongEdges <= |lines| &&
    (forall i :: 1 <= i < LayerStart(h) ==> |lines[i]| >= 2) &&
    (forall i :: LayerStart(h) <= i < ChainStart(h) ==> LayerLineOk(lines[i], h.numVertices)) &&
    (forall i :: ChainStart(h) <= i < ChainStart(h) + h.numLongEdges ==> |lines[i]| > 0)
  }

  /** Vertex x (1-based) is an endpoint of one of the m edge lines. */
  predicate OnEdgeLine(lines: seq<Line>, m: int, x: int)
  {
    exists j :: 1 <= j < 1 + m && j < |lines| && |lines[j]| >= 2 && (lines[j][0] == x || lines[j][1] == x)
  }

  /** Among the long-edge lines from..end - 1, every line of a single vertex
      (whose chain would be empty) has a later line for the same long edge. */
  predicate SingleLinesOverridden(lines: seq<Line>, from: int, end: int)
    requires 0 <= from <= end <= |lines| && forall i :: from <= i < end ==> |lines[i]| > 0
  {
    forall i :: from <= i < end && |lines[i]| == 1 ==>
      exists j :: i < j < end && LongEdgeOfLine(lines[j]) == LongEdgeOfLine(lines[i])
  }

  /** The first token of each of the m edge lines names one of vertices 1..n. */
  predicate SourceTokensInRange(lines: seq<Line>, m: int, n: int)
    requires 0 <= m && 1 + m <= |lines| && forall i :: 1 <= i < 1 + m ==> |lines[i]| >= 2
  {
    forall i :: 1 <= i < 1 + m ==> 1 <= lines[i][0] <= n
  }

  /** Both ends of line i are on one of the m edge lines. */
  predicate EndsOnEdgeLine(lines: seq<Line>, m: int, i: int)
  {
    0 <= i < |lines| && |lines[i]| > 0 &&
    OnEdgeLine(lines, m, lines[i][0]) && OnEdgeLine(lines, m, lines[i][|lines[i]| - 1])
  }

  /** Both ends of each long-edge line from..end - 1 are on one of the m edge
      lines. */
  predicate EndsOnEdgeLines(lines: seq<Line>, m: int, from: int, end: int)
  {
    forall i :: from <= i < end ==> EndsOnEdgeLine(lines, m, i)
  }

  /** What the GDInstance constructor needs of a readable file: at least one
      layer; a later line for the same long edge after every long-edge line
      of a single vertex; every edge line's source among vertices 1..n; both
      ends of every long-edge line on some edge line. */
  predicate InstanceBuildable(lines: seq<Line>)
    requires FileReadable(lines)
  {
    var h := HeaderOf(lines);
    var end := ChainStart(h) + h.numLongEdges;
    h.numLayers > 0 &&
    SingleLinesOverridden(lines, ChainStart(h), end) &&
    SourceTokensInRange(lines, h.numEdges, h.numVertices) &&
    EndsOnEdgeLines(lines, h.numEdges, ChainStart(h), end)
  }

  /** A file importInstance turns into an instance. */
  predicate FileWellFormed(lines: seq<Line>)
  {
    FileReadable(lines) && InstanceBuildable(lines)
  }

  /** importInstance returns an instance exactly for the well-formed files. */
  lemma ImportOk(lines: seq<Line>)
    ensures Import(lines).Ok? <==> FileWellFormed(lines)
  {
    if |lines| > 0 && |lines[0]| >= 4 {
      var h := HeaderOf(lines);
      if h.numVertices >= 0 && h.numEdges >= 0 && h.numLayers >= 0 && h.numLongEdges >= 0 {
        ReadersOk(lines, h);
        if FileReadable(lines) {
          ImportThroughReaders(lines, h);
          NewInstanceOk(lines, h, ReadEdges(lines, 1, h.numEdges).value,
                        ReadLayers(lines, LayerStart(h), h.numLayers, h.numVertices).value,
                        ReadChains(lines, ChainStart(h), h.numLongEdges).value);
        }
      }
    }
  }

  /** Past a good header, the three readers succeed exactly on the readable
      files. */
  lemma ReadersOk(lines: seq<Line>, h: Header)
    requires |lines| > 0 && |lines[0]| >= 4 && h == HeaderOf(lines)
    requires h.numVertices >= 0 && h.numEdges >= 0 && h.numLayers >= 0 && h.numLongEdges >= 0
    ensures (ReadEdges(lines, 1, h.numEdges).Ok? &&
             ReadLayers(lines, LayerStart(h), h.numLayers, h.numVertices).Ok? &&
             ReadChains(lines, ChainStart(h), h.numLongEdges).Ok?) <==> FileReadable(lines)
  {
    if ReadEdges(lines, 1, h.numEdges).Ok? {
      ReadLayersOk(lines, LayerStart(h), h.numLayers, h.numVertices);
      if ReadLayers(lines, LayerStart(h), h.numLayers, h.numVertices).Ok? {
        ReadChainsOk(lines, ChainStart(h), h.numLongEdges);
      }
    }
    if FileReadable(lines) {
      assert ReadEdges(lines, 1, h.numEdges).Ok?;
      ReadLayersOk(lines, LayerStart(h), h.numLayers, h.numVertices);
      ReadChainsOk(lines, ChainStart(h), h.numLongEdges);
    }
  }

  /** Once the three readers succeed, the import is the constructor's
      result on what they read. */
  lemma ImportThroughReaders(lines: seq<Line>, h: Header)
    requires |lines| > 0 && |lines[0]| >= 4 && h == HeaderOf(lines)
    requires h.numVertices >= 0 && h.numEdges >= 0 && h.numLayers >= 0 && h.numLongEdges >= 0
    requires ReadEdges(lines, 1, h.numEdges).Ok?
    requires ReadLayers(lines, LayerStart(h), h.numLayers, h.numVertices).Ok?
    requires ReadChains(lines, ChainStart(h), h.numLongEdges).Ok?
    ensures Import(lines) == NewInstance(h, ReadEdges(lines, 1, h.numEdges).value,
                                         ReadLayers(lines, LayerStart(h), h.numLayers, h.numVertices).value,
                                         ReadChains(lines, ChainStart(h), h.numLongEdges).value)
  {
  }

  /** On a readable file the constructor succeeds on what the readers
      collected exactly when the file is buildable. */
  lemma NewInstanceOk(lines: seq<Line>, h: Header, E: seq<Edge>, lay: Layers, ch: Chains)
    requires FileReadable(lines) && h == HeaderOf(lines)
    requires ReadEdges(lines, 1, h.numEdges) == Ok(E)
    requires ReadLayers(lines, LayerStart(h), h.numLayers, h.numVertices) == Ok(lay)
    requires ReadChains(lines, ChainStart(h), h.numLongEdges) == Ok(ch)
    ensures NewInstance(h, E, lay, ch).Ok? <==> InstanceBuildable(lines)
  {
    var from := ChainStart(h);
    var end := from + h.numLongEdges;
    assert 0 in lay.lists <==> h.numLayers > 0 by {
      ReadLayersKeys(lines, LayerStart(h), h.numLayers, h.numVertices);
    }
    assert ChainsNonEmpty(ch.chains) <==> SingleLinesOverridden(lines, from, end) by {
      ChainsNonEmptyLines(lines, from, h.numLongEdges);
    }
    assert SourcesInRange(E, h.numVertices) <==> SourceTokensInRange(lines, h.numEdges, h.numVertices) by {
      SourceLines(lines, h.numEdges, E, h.numVertices);
    }
    assert EndsIn(ch.longEdges, Endpoints(E)) <==> EndsOnEdgeLines(lines, h.numEdges, from, end) by {
      LinkedLines(lines, h.numEdges, E, from, h.numLongEdges);
    }
    BuildableParts(lines, h, from, end);
  }

  lemma BuildableParts(lines: seq<Line>, h: Header, from: int, end: int)
    requires FileReadable(lines) && h == HeaderOf(lines) && from == ChainStart(h) && end == from + h.numLongEdges
    ensures InstanceBuildable(lines) <==>
      h.numLayers > 0 && SingleLinesOverridden(lines, from, end) &&
      SourceTokensInRange(lines, h.numEdges, h.numVertices) && EndsOnEdgeLines(lines, h.numEdges, from, end)
  {
  }

  /** Every edge's source has a layerOfVertex slot exactly when every edge
      line's first token names one of vertices 1..n. */
  lemma SourceLines(lines: seq<Line>, m: nat, E: seq<Edge>, n: int)
    requires 1 + m <= |lines| && |E| == m
    requires forall i :: 1 <= i < 1 + m ==> |lines[i]| >= 2 && E[i - 1] == EdgeOfLine(lines[i])
    ensures SourcesInRange(E, n) <==> SourceTokensInRange(lines, m, n)
  {
    if SourceTokensInRange(lines, m, n) {
      forall i | 0 <= i < m ensures 0 <= E[i].source < n {
        assert E[i] == EdgeOfLine(lines[i + 1]);
      }
    }
  }

  /** The last position of xs holding the value at L0. */
  lemma LastIndexOf<T>(xs: seq<T>, L0: nat) returns (L: nat)
    requires L0 < |xs|
    ensures L0 <= L < |xs| && xs[L] == xs[L0]
    ensures forall L' :: L < L' < |xs| ==> xs[L'] != xs[L0]
    decreases |xs| - L0
  {
    if j :| L0 < j < |xs| && xs[j] == xs[L0] {
      L := LastIndexOf(xs, j);
    } else {
      L := L0;
    }
  }

  /** Every chain is non-empty exactly when each single-vertex long-edge
      line is overridden by a later line for the same long edge: the chain
      kept for a long edge is the one of its last line. */
  lemma ChainsNonEmptyLines(lines: seq<Line>, from: nat, count: nat)
    requires from <= |lines| && ReadChains(lines, from, count).Ok?
    ensures from + count <= |lines| && forall i :: from <= i < from + count ==> |lines[i]| > 0
    ensures ChainsNonEmpty(ReadChains(lines, from, count).value.chains) <==>
      SingleLinesOverridden(lines, from, from + count)
  {
    ReadChainsOk(lines, from, count);
    if ChainsNonEmpty(ReadChains(lines, from, count).value.chains) {
      NonEmptyChainsOverride(lines, from, count);
    }
    if SingleLinesOverridden(lines, from, from + count) {
      OverriddenChainsNonEmpty(lines, from, count);
    }
  }

  lemma NonEmptyChainsOverride(lines: seq<Line>, from: nat, count: nat)
    requires from <= |lines| && ReadChains(lines, from, count).Ok?
    requires ChainsNonEmpty(ReadChains(lines, from, count).value.chains)
    ensures from + count <= |lines| && forall i :: from <= i < from + count ==> |lines[i]| > 0
    ensures SingleLinesOverridden(lines, from, from + count)
  {
    ReadChainsOk(lines, from, count);
    ReadChainsLongEdges(lines, from, count);
    var ch := ReadChains(lines, from, count).value;
    forall i | from <= i < from + count && |lines[i]| == 1
      ensures exists j :: i < j < from + count && LongEdgeOfLine(lines[j]) == LongEdgeOfLine(lines[i])
    {
      var L := LastIndexOf(ch.longEdges, i - from);
      ChainOfLastLine(lines, from, count, L);
      assert |ch.chains[ch.longEdges[L]]| > 0;
      var j := from + L;
      assert LongEdgeOfLine(lines[j]) == LongEdgeOfLine(lines[i]);
    }
  }

  lemma OverriddenChainsNonEmpty(lines: seq<Line>, from: nat, count: nat)
    requires from <= |lines| && ReadChains(lines, from, count).Ok?
    requires from + count <= |lines| && forall i :: from <= i < from + count ==> |lines[i]| > 0
    requires SingleLinesOverridden(lines, from, from + count)
    ensures ChainsNonEmpty(ReadChains(lines, from, count).value.chains)
  {
    ReadChainsLongEdges(lines, from, count);
    ReadChainsKeys(lines, from, count);
    var ch := ReadChains(lines, from, count).value;
    forall le | le in ch.chains ensures |ch.chains[le]| > 0 {
      var L0 :| 0 <= L0 < |ch.longEdges| && ch.longEdges[L0] == le;
      var L := LastIndexOf(ch.longEdges, L0);
      var i := from + L;
      assert !exists j :: i < j < from + count && LongEdgeOfLine(lines[j]) == LongEdgeOfLine(lines[i]) by {
        forall j | i < j < from + count ensures LongEdgeOfLine(lines[j]) != LongEdgeOfLine(lines[i]) {
          assert ch.longEdges[j - from] != ch.longEdges[L0];
        }
      }
      ChainOfLastLine(lines, from, count, L);
      assert |ch.chains[le]| == |lines[i]| - 1;
    }
  }

  /** A vertex is an endpoint of the edges read from the m edge lines
      exactly when it (1-based) appears on one of them. */
  lemma EndpointLines(lines: seq<Line>, m: nat, E: seq<Edge>, v: int)
    requires 1 + m <= |lines| && |E| == m
    requires forall i :: 1 <= i < 1 + m ==> |lines[i]| >= 2 && E[i - 1] == EdgeOfLine(lines[i])
    ensures v in Endpoints(E) <==> OnEdgeLine(lines, m, v + 1)
  {
    if v in Endpoints(E) {
      var i :| 0 <= i < |E| && IsEndpoint(E[i], v);
      assert E[i] == EdgeOfLine(lines[i + 1]);
    }
    if OnEdgeLine(lines, m, v + 1) {
      var j :| 1 <= j < 1 + m && j < |lines| && |lines[j]| >= 2 && (lines[j][0] == v + 1 || lines[j][1] == v + 1);
      assert IsEndpoint(E[j - 1], v);
    }
  }

  /** Every long edge has both endpoints in the adjacency map exactly when
      both ends of every long-edge line appear on some edge line. */
  lemma LinkedLines(lines: seq<Line>, m: nat, E: seq<Edge>, from: nat, count: nat)
    requires 1 + m <= |lines| && |E| == m
    requires forall i :: 1 <= i < 1 + m ==> |lines[i]| >= 2 && E[i - 1] == EdgeOfLine(lines[i])
    requires from <= |lines| && ReadChains(lines, from, count).Ok?
    ensures from + count <= |lines| && forall i :: from <= i < from + count ==> |lines[i]| > 0
    ensures |ReadChains(lines, from, count).value.longEdges| == count
    ensures EndsIn(ReadChains(lines, from, count).value.longEdges, Endpoints(E)) <==>
      EndsOnEdgeLines(lines, m, from, from + count)
  {
    ReadChainsLongEdges(lines, from, count);
    var les := ReadChains(lines, from, count).value.longEdges;
    if EndsOnEdgeLines(lines, m, from, from + count) {
      forall L | 0 <= L < count ensures les[L].source in Endpoints(E) && les[L].target in Endpoints(E) {
        assert EndsOnEdgeLine(lines, m, from + L);
        LongEdgeEnds(lines, m, E, from + L);
      }
    }
    if EndsIn(les, Endpoints(E)) {
      forall i | from <= i < from + count ensures EndsOnEdgeLine(lines, m, i) {
        var L := i - from;
        assert les[L] == LongEdgeOfLine(lines[from + L]);
        LongEdgeEnds(lines, m, E, i);
      }
    }
  }

  /** The long edge of line i has both endpoints among the edges' endpoints
      exactly when both ends of the line are on an edge line. */
  lemma LongEdgeEnds(lines: seq<Line>, m: nat, E: seq<Edge>, i: nat)
    requires 1 + m <= |lines| && |E| == m
    requires forall i :: 1 <= i < 1 + m ==> |lines[i]| >= 2 && E[i - 1] == EdgeOfLine(lines[i])
    requires i < |lines| && |lines[i]| > 0
    ensures var le := LongEdgeOfLine(lines[i]);
      le.source in Endpoints(E) && le.target in Endpoints(E) <==> EndsOnEdgeLine(lines, m, i)
  {
    var le := LongEdgeOfLine(lines[i]);
    EndpointLines(lines, m, E, le.source);
    EndpointLines(lines, m, E, le.target);
  }

  /** When importInstance stops, a missing line is the one just past the
      end, and any other line it blames is a line of the file. */
  lemma ImportErrors(lines: seq<Line>)
    ensures Import(lines).Err? && Import(lines).error.MissingLine? ==> Import(lines).error.index == |lines|
    ensures Import(lines).Err? && (Import(lines).error.MalformedLine? || Import(lines).error.VertexOutOfRange?) ==>
      Import(lines).error.index < |lines|
  {
    if |lines| > 0 && |lines[0]| >= 4 {
      var h := HeaderOf(lines);
      if h.numVertices >= 0 && h.numEdges >= 0 && ReadEdges(lines, 1, h.numEdges).Ok? && h.numLayers >= 0 {
        ReadLayersOk(lines, LayerStart(h), h.numLayers, h.numVertices);
        if ReadLayers(lines, LayerStart(h), h.numLayers, h.numVertices).Ok? && h.numLongEdges >= 0 {
          ReadChainsOk(lines, ChainStart(h), h.numLongEdges);
          if ReadChains(lines, ChainStart(h), h.numLongEdges).Ok? {
            ImportThroughReaders(lines, h);
          }
        }
      }
    }
  }

  /** When the GDInstance constructor throws, the error names the line at
      fault: no layers were declared, or an edge line's source token names no
      vertex, or a long-edge line has an end on no edge line. */
  lemma ConstructorErrors(lines: seq<Line>)
    ensures Import(lines).Err? && Import(lines).error.NoLayers? ==>
      |lines| > 0 && |lines[0]| >= 4 && HeaderOf(lines).numLayers == 0
    ensures Import(lines).Err? && Import(lines).error.SourceOutOfRange? ==>
      var i := Import(lines).error.index;
      |lines| > 0 && |lines[0]| >= 4 && 1 <= i < LayerStart(HeaderOf(lines)) && i < |lines| && |lines[i]| >= 2 &&
      !(1 <= lines[i][0] <= HeaderOf(lines).numVertices)
    ensures Import(lines).Err? && Import(lines).error.MissingAdjacency? ==>
      var i := Import(lines).error.index;
      |lines| > 0 && |lines[0]| >= 4 && ChainStart(HeaderOf(lines)) <= i &&
      UnlinkedLine(lines, HeaderOf(lines).numEdges, i)
  {
    if Import(lines).Err? && ConstructorError(Import(lines).error) {
      var h := HeaderOf(lines);
      ImportReachesConstructor(lines, h);
      var E := ReadEdges(lines, 1, h.numEdges).value;
      var lay := ReadLayers(lines, LayerStart(h), h.numLayers, h.numVertices).value;
      var ch := ReadChains(lines, ChainStart(h), h.numLongEdges).value;
      assert ConstructorCheck(h, E, lay, ch) == Fail(Import(lines).error) by {
        ImportThroughReaders(lines, h);
      }
      ReadEdgesLines(lines, h.numEdges, E);
      ConstructorErrorLines(lines, h, E, lay, ch);
    }
  }

  /** The line each constructor error names, in terms of what the readers
      returned. */
  lemma ConstructorErrorLines(lines: seq<Line>, h: Header, E: seq<Edge>, lay: Layers, ch: Chains)
    requires |lines| > 0 && |lines[0]| >= 4 && h == HeaderOf(lines)
    requires h.numVertices >= 0 && h.numEdges >= 0 && h.numLayers >= 0 && h.numLongEdges >= 0
    requires EdgeLines(lines, h.numEdges, E) && ChainStart(h) <= |lines|
    requires ReadLayers(lines, LayerStart(h), h.numLayers, h.numVertices) == Ok(lay)
    requires ReadChains(lines, ChainStart(h), h.numLongEdges) == Ok(ch)
    ensures var r := ConstructorCheck(h, E, lay, ch);
      r.Fail? && r.error.NoLayers? ==> h.numLayers == 0
    ensures var r := ConstructorCheck(h, E, lay, ch);
      r.Fail? && r.error.SourceOutOfRange? ==>
        var i := r.error.index;
        1 <= i < LayerStart(h) && i < |lines| && |lines[i]| >= 2 && !(1 <= lines[i][0] <= h.numVertices)
    ensures var r := ConstructorCheck(h, E, lay, ch);
      r.Fail? && r.error.MissingAdjacency? ==>
        ChainStart(h) <= r.error.index && UnlinkedLine(lines, h.numEdges, r.error.index)
  {
    NoLayersError(lines, h, E, lay, ch);
    SourceError(lines, h, E, lay, ch);
    var L := FirstUnlinked(ch.longEdges, Endpoints(E));
    assert L < |ch.longEdges| ==> UnlinkedLine(lines, h.numEdges, ChainStart(h) + L) by {
      if L < |ch.longEdges| {
        AdjacencyErrorLine(lines, h.numEdges, E, ChainStart(h), h.numLongEdges, ch);
      }
    }
    AdjacencyError(lines, h, E, lay, ch);
  }

  /** Only the constructor reports one of its own errors: the header and
      every reader succeeded before it. */
  lemma ImportReachesConstructor(lines: seq<Line>, h: Header)
    requires Import(lines).Err? && ConstructorError(Import(lines).error) && h == HeaderOf(lines)
    ensures |lines| > 0 && |lines[0]| >= 4
    ensures h.numVertices >= 0 && h.numEdges >= 0 && h.numLayers >= 0 && h.numLongEdges >= 0
    ensures ReadEdges(lines, 1, h.numEdges).Ok?
    ensures ReadLayers(lines, LayerStart(h), h.numLayers, h.numVertices).Ok?
    ensures ReadChains(lines, ChainStart(h), h.numLongEdges).Ok?
  {
    if h.numVertices >= 0 && h.numEdges >= 0 && ReadEdges(lines, 1, h.numEdges).Ok? && h.numLayers >= 0 {
      ReadLayersOk(lines, LayerStart(h), h.numLayers, h.numVertices);
      if ReadLayers(lines, LayerStart(h), h.numLayers, h.numVertices).Ok? && h.numLongEdges >= 0 {
        ReadChainsOk(lines, ChainStart(h), h.numLongEdges);
      }
    }
  }

  /** A missing layer 0 means the header declared no layers. */
  lemma NoLayersError(lines: seq<Line>, h: Header, E: seq<Edge>, lay: Layers, ch: Chains)
    requires h.numVertices >= 0 && h.numEdges >= 0 && h.numLayers >= 0 && LayerStart(h) <= |lines|
    requires ReadLayers(lines, LayerStart(h), h.numLayers, h.numVertices) == Ok(lay)
    ensures var r := ConstructorCheck(h, E, lay, ch);
      r.Fail? && r.error.NoLayers? ==> h.numLayers == 0
  {
    NewInstanceErrorKinds(h, E, lay, ch);
    if 0 !in lay.lists {
      ReadLayersKeys(lines, LayerStart(h), h.numLayers, h.numVertices);
    }
  }

  /** The line a SourceOutOfRange error names is an edge line whose
      source token names no vertex. */
  lemma SourceError(lines: seq<Line>, h: Header, E: seq<Edge>, lay: Layers, ch: Chains)
    requires h.numEdges >= 0 && h.numLayers >= 0 && EdgeLines(lines, h.numEdges, E)
    ensures var r := ConstructorCheck(h, E, lay, ch);
      r.Fail? && r.error.SourceOutOfRange? ==>
        var i := r.error.index;
        1 <= i < LayerStart(h) && i < |lines| && |lines[i]| >= 2 && !(1 <= lines[i][0] <= h.numVertices)
  {
    NewInstanceErrorKinds(h, E, lay, ch);
    if FirstBadSource(E, h.numVertices) < |E| {
      SourceErrorLine(lines, h.numEdges, E, h.numVertices);
    }
  }

  /** Line i is a long-edge line with an end on no edge line. */
  predicate UnlinkedLine(lines: seq<Line>, m: nat, i: int)
  {
    0 <= i < |lines| && |lines[i]| > 0 && !EndsOnEdgeLine(lines, m, i)
  }

  /** The line a MissingAdjacency error names is the line of the first
      long edge with an endpoint outside the adjacency map. */
  lemma AdjacencyError(lines: seq<Line>, h: Header, E: seq<Edge>, lay: Layers, ch: Chains)
    requires h.numEdges >= 0 && h.numLayers >= 0
    requires var L := FirstUnlinked(ch.longEdges, Endpoints(E));
      L < |ch.longEdges| ==> UnlinkedLine(lines, h.numEdges, ChainStart(h) + L)
    ensures var r := ConstructorCheck(h, E, lay, ch);
      r.Fail? && r.error.MissingAdjacency? ==>
        ChainStart(h) <= r.error.index && UnlinkedLine(lines, h.numEdges, r.error.index)
  {
    NewInstanceErrorKinds(h, E, lay, ch);
  }

  /** Which check of the constructor each error comes from. */
  lemma NewInstanceErrorKinds(h: Header, E: seq<Edge>, lay: Layers, ch: Chains)
    requires h.numEdges >= 0 && h.numLayers >= 0
    ensures var r := ConstructorCheck(h, E, lay, ch);
      r.Fail? && r.error.NoLayers? ==> 0 !in lay.lists
    ensures var r := ConstructorCheck(h, E, lay, ch);
      r.Fail? && r.error.SourceOutOfRange? ==>
        FirstBadSource(E, h.numVertices) < |E| && r.error.index == 1 + FirstBadSource(E, h.numVertices)
    ensures var r := ConstructorCheck(h, E, lay, ch);
      r.Fail? && r.error.MissingAdjacency? ==>
        FirstUnlinked(ch.longEdges, Endpoints(E)) < |ch.longEdges| &&
        r.error.index == ChainStart(h) + FirstUnlinked(ch.longEdges, Endpoints(E))
  {
  }

  /** The first edge whose source has no layerOfVertex slot comes from an
      edge line whose first token is not one of vertices 1..n. */
  lemma SourceErrorLine(lines: seq<Line>, m: nat, E: seq<Edge>, n: int)
    requires EdgeLines(lines, m, E)
    requires FirstBadSource(E, n) < m
    ensures var i := 1 + FirstBadSource(E, n); !(1 <= lines[i][0] <= n)
  {
    var k := FirstBadSource(E, n);
    assert E[k] == EdgeOfLine(lines[1 + k]);
  }

  /** The first long edge with an endpoint outside the adjacency map comes
      from a long-edge line with an end on no edge line. */
  lemma AdjacencyErrorLine(lines: seq<Line>, m: nat, E: seq<Edge>, from: nat, count: nat, ch: Chains)
    requires EdgeLines(lines, m, E)
    requires from <= |lines| && ReadChains(lines, from, count) == Ok(ch)
    requires FirstUnlinked(ch.longEdges, Endpoints(E)) < |ch.longEdges|
    ensures UnlinkedLine(lines, m, from + FirstUnlinked(ch.longEdges, Endpoints(E)))
  {
    var L := FirstUnlinked(ch.longEdges, Endpoints(E));
    LongEdgeLine(lines, from, count, ch, L);
    LongEdgeEnds(lines, m, E, from + L);
  }

  /** The edges read from lines 1..m, one per line. */
  predicate EdgeLines(lines: seq<Line>, m: nat, E: seq<Edge>)
  {
    1 + m <= |lines| && |E| == m &&
    forall i :: 1 <= i < 1 + m ==> |lines[i]| >= 2 && E[i - 1] == EdgeOfLine(lines[i])
  }

  lemma ReadEdgesLines(lines: seq<Line>, m: nat, E: seq<Edge>)
    requires 1 <= |lines| && ReadEdges(lines, 1, m) == Ok(E)
    ensures EdgeLines(lines, m, E)
  {
    forall i | 1 <= i < 1 + m ensures |lines[i]| >= 2 && E[i - 1] == EdgeOfLine(lines[i]) {
      assert ReadEdges(lines, 1, m).value[i - 1] == EdgeOfLine(lines[i]);
    }
  }

  /** The L-th long edge read is the long edge of line from + L. */
  lemma LongEdgeLine(lines: seq<Line>, from: nat, count: nat, ch: Chains, L: nat)
    requires from <= |lines| && ReadChains(lines, from, count) == Ok(ch) && L < |ch.longEdges|
    ensures from + L < |lines| && |lines[from + L]| > 0 && ch.longEdges[L] == LongEdgeOfLine(lines[from + L])
  {
    ReadChainsOk(lines, from, count);
    ReadChainsLongEdges(lines, from, count);
    assert |lines[from + L]| > 0;
    assert ReadChains(lines, from, count).value.longEdges[L] == LongEdgeOfLine(lines[from + L]);
  }

  /** A successful import ran every reader to success and assembled what
      they read. */
  lemma ImportStages(lines: seq<Line>, h: Header)
    requires Import(lines).Ok? && |lines| > 0 && |lines[0]| >= 4 && h == HeaderOf(lines)
    ensures h.numVertices >= 0 && h.numEdges >= 0 && h.numLayers >= 0 && h.numLongEdges >= 0
    ensures ChainStart(h) + h.numLongEdges <= |lines|
    ensures ReadEdges(lines, 1, h.numEdges).Ok?
    ensures ReadLayers(lines, LayerStart(h), h.numLayers, h.numVertices).Ok?
    ensures ReadChains(lines, ChainStart(h), h.numLongEdges).Ok?
    ensures Import(lines).value == Assemble(h, ReadEdges(lines, 1, h.numEdges).value,
                                            ReadLayers(lines, LayerStart(h), h.numLayers, h.numVertices).value,
                                            ReadChains(lines, ChainStart(h), h.numLongEdges).value)
  {
    ImportOk(lines);
    ReadLayersOk(lines, LayerStart(h), h.numLayers, h.numVertices);
    ReadChainsOk(lines, ChainStart(h), h.numLongEdges);
  }

  /** The header counts and the edges of an imported instance: edge i is
      edge line i + 1 made 0-based, the vertex set is their endpoints, and
      each endpoint's adjacency lists are the ones derived from the edges. */
  lemma ImportEdges(lines: seq<Line>, h: Header, ins: Instance)
    requires |lines| > 0 && |lines[0]| >= 4 && h == HeaderOf(lines) && Import(lines) == Ok(ins)
    ensures ins.totalNumVertices == h.numVertices && ins.numEdges == h.numEdges
    ensures ins.numberOfLayers == h.numLayers && ins.numRealLongEdges == h.numLongEdges
    ensures |ins.shortEdges| == h.numEdges
    ensures forall i :: 1 <= i < LayerStart(h) ==> ins.shortEdges[i - 1] == EdgeOfLine(lines[i])
    ensures ins.totalListOfVertices == Endpoints(ins.shortEdges)
    ensures forall v :: v in ins.adjacency <==> v in ins.totalListOfVertices
    ensures forall v :: Lookup(ins.adjacency, v) == DerivedAdjacency(ins.shortEdges, v)
  {
    ImportStages(lines, h);
  }

  /** The layer and long-edge fields of an imported instance are what the
      layer and long-edge readers collected. */
  lemma ImportParts(lines: seq<Line>, h: Header, ins: Instance)
    requires |lines| > 0 && |lines[0]| >= 4 && h == HeaderOf(lines) && Import(lines) == Ok(ins)
    ensures h.numVertices >= 0 && h.numEdges >= 0 && h.numLayers >= 0 && h.numLongEdges >= 0
    ensures ChainStart(h) + h.numLongEdges <= |lines|
    ensures ReadLayers(lines, LayerStart(h), h.numLayers, h.numVertices).Ok?
    ensures ReadChains(lines, ChainStart(h), h.numLongEdges).Ok?
    ensures ins.layerOf == ReadLayers(lines, LayerStart(h), h.numLayers, h.numVertices).value.layerOf
    ensures ins.verticesInLayer == ReadLayers(lines, LayerStart(h), h.numLayers, h.numVertices).value.lists
    ensures ins.longEdges == ReadChains(lines, ChainStart(h), h.numLongEdges).value.longEdges
    ensures ins.chains == ReadChains(lines, ChainStart(h), h.numLongEdges).value.chains
  {
    ImportStages(lines, h);
  }

  /** The layer lists of an imported instance: layer L lists the vertices
      of layer line L, and only layers 0..nl - 1 have a list. */
  lemma ImportLayerLists(lines: seq<Line>, h: Header, ins: Instance)
    requires |lines| > 0 && |lines[0]| >= 4 && h == HeaderOf(lines) && Import(lines) == Ok(ins)
    ensures ChainStart(h) <= |lines|
    ensures forall L :: L in ins.verticesInLayer <==> 0 <= L < h.numLayers
    ensures forall L :: 0 <= L < h.numLayers ==> ins.verticesInLayer[L] == Decremented(lines[LayerStart(h) + L])
  {
    ImportParts(lines, h, ins);
    ReadLayersKeys(lines, LayerStart(h), h.numLayers, h.numVertices);
    ReadLayersLists(lines, LayerStart(h), h.numLayers, h.numVertices);
  }

  /** The layer table of an imported instance: every vertex is in the last
      layer whose line names it, and in layer 0 when none does. */
  lemma {:induction false} ImportLayerOf(lines: seq<Line>, h: Header, ins: Instance, v: int)
    requires |lines| > 0 && |lines[0]| >= 4 && h == HeaderOf(lines) && Import(lines) == Ok(ins)
    requires 0 <= v < h.numVertices
    ensures ChainStart(h) <= |lines| && |ins.layerOf| == h.numVertices
    ensures ins.layerOf[v] == 0 || (0 < ins.layerOf[v] < h.numLayers && v + 1 in lines[LayerStart(h) + ins.layerOf[v]])
    ensures forall i :: LayerStart(h) + ins.layerOf[v] < i < ChainStart(h) ==> v + 1 !in lines[i]
  {
    ImportParts(lines, h, ins);
    LayerOfFields(lines, h, ins, v);
  }

  /** The layer table read from the layer lines of a file, stated about the
      instance field that holds it. */
  lemma {:induction false} LayerOfFields(lines: seq<Line>, h: Header, ins: Instance, v: int)
    requires |lines| > 0 && |lines[0]| >= 4 && h == HeaderOf(lines) && h.numVertices >= 0 && h.numLayers >= 0 && LayerStart(h) >= 0
    requires LayerStart(h) <= |lines| && ReadLayers(lines, LayerStart(h), h.numLayers, h.numVertices).Ok?
    requires ins.layerOf == ReadLayers(lines, LayerStart(h), h.numLayers, h.numVertices).value.layerOf
    requires 0 <= v < h.numVertices
    ensures ChainStart(h) <= |lines| && |ins.layerOf| == h.numVertices
    ensures ins.layerOf[v] == 0 || (0 < ins.layerOf[v] < h.numLayers && v + 1 in lines[LayerStart(h) + ins.layerOf[v]])
    ensures forall i :: LayerStart(h) + ins.layerOf[v] < i < ChainStart(h) ==> v + 1 !in lines[i]
  {
    ReadLayersLayerOf(lines, LayerStart(h), h.numLayers, h.numVertices, v, ins.layerOf[v]);
    forall i | LayerStart(h) + ins.layerOf[v] < i < ChainStart(h) ensures v + 1 !in lines[i] {
      LayerOfAbsent(lines, LayerStart(h), h.numLayers, h.numVertices, v, ins.layerOf[v], i);
    }
  }

  /** A line past a vertex's layer line does not name it. */
  lemma {:induction false} LayerOfAbsent(lines: seq<Line>, from: nat, count: nat, n: nat, v: int, L: int, i: int)
    requires from <= |lines| && ReadLayers(lines, from, count, n).Ok? && 0 <= v < n
    requires L == ReadLayers(lines, from, count, n).value.layerOf[v]
    requires from + L < i < from + count
    ensures 0 <= i < |lines| && v + 1 !in lines[i]
  {
    ReadLayersLayerOf(lines, from, count, n, v, L);
  }

  /** Long edge L read by the long-edge reader, at one index. */
  lemma {:induction false} LongEdgeAt(lines: seq<Line>, from: nat, count: nat, E: seq<Edge>, L: int)
    requires from <= |lines| && ReadChains(lines, from, count).Ok?
    requires E == ReadChains(lines, from, count).value.longEdges && 0 <= L < count
    ensures from + L < |lines| && |lines[from + L]| > 0 && L < |E| && E[L] == LongEdgeOfLine(lines[from + L])
  {
    ReadChainsLongEdges(lines, from, count);
    assert E[L] == ReadChains(lines, from, count).value.longEdges[L];
  }

  /** The chain of long edge L read by the long-edge reader, when line L is
      the last to name that long edge. */
  lemma {:induction false} ChainAt(lines: seq<Line>, from: nat, count: nat, E: seq<Edge>, C: map<Edge, seq<Edge>>, L: int)
    requires from <= |lines| && ReadChains(lines, from, count).Ok?
    requires E == ReadChains(lines, from, count).value.longEdges && C == ReadChains(lines, from, count).value.chains
    requires 0 <= L < count && |E| == count && forall L' :: L < L' < count ==> E[L'] != E[L]
    ensures from + L < |lines| && |lines[from + L]| > 0
    ensures E[L] in C && C[E[L]] == ChainOfLine(lines[from + L])
  {
    ReadChainsChains(lines, from, count);
  }

  /** The long edges read from the long-edge lines of a file, stated about
      the instance fields that hold them. */
  lemma {:induction false} LongEdgeFields(lines: seq<Line>, h: Header, ins: Instance)
    requires |lines| > 0 && |lines[0]| >= 4 && h == HeaderOf(lines) && h.numLongEdges >= 0 && ChainStart(h) >= 0
    requires ChainStart(h) <= |lines| && ReadChains(lines, ChainStart(h), h.numLongEdges).Ok?
    requires ins.longEdges == ReadChains(lines, ChainStart(h), h.numLongEdges).value.longEdges
    requires ins.chains == ReadChains(lines, ChainStart(h), h.numLongEdges).value.chains
    ensures ChainStart(h) + h.numLongEdges <= |lines| && |ins.longEdges| == h.numLongEdges
    ensures forall i :: ChainStart(h) <= i < ChainStart(h) + h.numLongEdges ==> |lines[i]| > 0
    ensures forall L :: 0 <= L < h.numLongEdges ==> ins.longEdges[L] == LongEdgeOfLine(lines[ChainStart(h) + L])
    ensures forall e :: e in ins.chains <==> e in ins.longEdges
  {
    ReadChainsLongEdges(lines, ChainStart(h), h.numLongEdges);
    ReadChainsKeys(lines, ChainStart(h), h.numLongEdges);
    ReadChainsOk(lines, ChainStart(h), h.numLongEdges);
    forall L | 0 <= L < h.numLongEdges ensures ins.longEdges[L] == LongEdgeOfLine(lines[ChainStart(h) + L]) {
      LongEdgeAt(lines, ChainStart(h), h.numLongEdges, ins.longEdges, L);
    }
  }

  /** The long edges of an imported instance: long edge L runs from the
      first to the last vertex of long-edge line L, and exactly the long
      edges have a chain. */
  lemma {:induction false} ImportLongEdges(lines: seq<Line>, h: Header, ins: Instance)
    requires |lines| > 0 && |lines[0]| >= 4 && h == HeaderOf(lines) && Import(lines) == Ok(ins)
    ensures ChainStart(h) + h.numLongEdges <= |lines| && |ins.longEdges| == h.numLongEdges
    ensures forall i :: ChainStart(h) <= i < ChainStart(h) + h.numLongEdges ==> |lines[i]| > 0
    ensures forall L :: 0 <= L < h.numLongEdges ==> ins.longEdges[L] == LongEdgeOfLine(lines[ChainStart(h) + L])
    ensures forall e :: e in ins.chains <==> e in ins.longEdges
  {
    ImportParts(lines, h, ins);
    LongEdgeFields(lines, h, ins);
  }

  /** The chains read from the long-edge lines of a file, stated about the
      instance fields that hold them. */
  lemma {:induction false} ChainFields(lines: seq<Line>, h: Header, ins: Instance)
    requires |lines| > 0 && |lines[0]| >= 4 && h == HeaderOf(lines) && h.numLongEdges >= 0 && ChainStart(h) >= 0
    requires ChainStart(h) <= |lines| && ReadChains(lines, ChainStart(h), h.numLongEdges).Ok?
    requires ins.longEdges == ReadChains(lines, ChainStart(h), h.numLongEdges).value.longEdges
    requires ins.chains == ReadChains(lines, ChainStart(h), h.numLongEdges).value.chains
    ensures ChainStart(h) + h.numLongEdges <= |lines| && |ins.longEdges| == h.numLongEdges
    ensures forall i :: ChainStart(h) <= i < ChainStart(h) + h.numLongEdges ==> |lines[i]| > 0
    ensures forall L :: 0 <= L < h.numLongEdges && (forall L' :: L < L' < h.numLongEdges ==> ins.longEdges[L'] != ins.longEdges[L]) ==>
      ins.longEdges[L] in ins.chains && ins.chains[ins.longEdges[L]] == ChainOfLine(lines[ChainStart(h) + L])
  {
    ReadChainsLongEdges(lines, ChainStart(h), h.numLongEdges);
    ReadChainsOk(lines, ChainStart(h), h.numLongEdges);
    forall L | 0 <= L < h.numLongEdges && (forall L' :: L < L' < h.numLongEdges ==> ins.longEdges[L'] != ins.longEdges[L])
      ensures ins.longEdges[L] in ins.chains && ins.chains[ins.longEdges[L]] == ChainOfLine(lines[ChainStart(h) + L])
    {
      ChainAt(lines, ChainStart(h), h.numLongEdges, ins.longEdges, ins.chains, L);
    }
  }

  /** A long edge's chain in an imported instance comes from the last
      long-edge line naming it. */
  lemma {:induction false} ImportChains(lines: seq<Line>, h: Header, ins: Instance)
    requires |lines| > 0 && |lines[0]| >= 4 && h == HeaderOf(lines) && Import(lines) == Ok(ins)
    ensures ChainStart(h) + h.numLongEdges <= |lines| && |ins.longEdges| == h.numLongEdges
    ensures forall i :: ChainStart(h) <= i < ChainStart(h) + h.numLongEdges ==> |lines[i]| > 0
    ensures forall L :: 0 <= L < h.numLongEdges && (forall L' :: L < L' < h.numLongEdges ==> ins.longEdges[L'] != ins.longEdges[L]) ==>
      ins.longEdges[L] in ins.chains && ins.chains[ins.longEdges[L]] == ChainOfLine(lines[ChainStart(h) + L])
  {
    ImportParts(lines, h, ins);
    ChainFields(lines, h, ins);
  }

  /** The edge counters of an imported instance: numDummyEdges counts the
      chain edges of all long-edge lines, and numRealEdges is numEdges plus
      the long edges minus those. */
  lemma ImportEdgeCounts(lines: seq<Line>, h: Header, ins: Instance)
    requires |lines| > 0 && |lines[0]| >= 4 && h == HeaderOf(lines) && Import(lines) == Ok(ins)
    ensures ins.numDummyEdges == Sum(0, h.numLongEdges, ChainLength(lines, ChainStart(h)))
    ensures ins.numRealEdges == h.numEdges + h.numLongEdges - ins.numDummyEdges
  {
    ImportStages(lines, h);
    ReadChainsCount(lines, ChainStart(h), h.numLongEdges);
  }

  /** The vertex sets of an imported instance: the dummies are the vertices
      some long-edge line lists after its first vertex, unless that line or
      a later one ends at them; the real vertices are the other endpoints of
      the edge lines; the counts are the sizes of the sets. */
  lemma ImportVertices(lines: seq<Line>, h: Header, ins: Instance, v: int)
    requires |lines| > 0 && |lines[0]| >= 4 && h == HeaderOf(lines) && Import(lines) == Ok(ins)
    ensures |ins.longEdges| == h.numLongEdges
    ensures v in ins.dummyVertices <==>
      exists L :: 0 <= L < h.numLongEdges && Marks(lines, ChainStart(h), L, v) &&
        forall L' :: L <= L' < h.numLongEdges ==> v != ins.longEdges[L'].target
    ensures ins.realVertices == ins.totalListOfVertices - ins.dummyVertices
    ensures ins.numRealVertices == |ins.realVertices| && ins.numDummyVertices == |ins.dummyVertices|
  {
    ImportStages(lines, h);
    ReadChainsDummies(lines, ChainStart(h), h.numLongEdges, v);
  }
}
