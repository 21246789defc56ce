/** LEBI, the long-edge local search: each round tries moving every long
    edge, as a whole column, onto every column where the source's layer and
    every layer of its chain are held by movable vertices, always starting
    from the round's incumbent, and keeps the last move that beats the
    incumbent. The search stops after a round with no such move. */
module ChainSearch {
  import opened GraphModel
  import opened Solutions
  import opened FastSwapCorrect
  import opened LongEdges
  import opened SwapSearch

  // ---------------------------------------------------------------------
  // Consistency of swapLongEdge

  /** The loop of swapLongEdge keeps score and matrix in step with the
      positions, since every step is a fastSwap inside one layer. */
  lemma {:induction false} SwapChainConsistent(ins: Instance, s: Solution, chain: seq<Edge>, k: nat, position: int)
    requires Consistent(ins, s) && 0 <= position < Width(ins)
    requires forall j :: 0 <= j < |chain| ==> 0 <= chain[j].target < ins.totalNumVertices
    ensures Consistent(ins, SwapChain(ins, s, chain, k, position))
    decreases |chain| - k
  {
    if k < |chain| {
      var v := chain[k].target;
      assert LayersWellFormed(ins);
      var layer := ins.layerOf[v];
      Occupant(ins, s, layer, position);
      var occupant := InputVertexAssignedTo(ins, s, layer, position);
      FastSwapIsSwap(ins, s, v, occupant);
      var s1 := FastSwap(ins, s, v, occupant);
      SwapChainUnfold(ins, s, chain, k, k + 1, position, v, occupant, s1);
      SwapChainConsistent(ins, s1, chain, k + 1, position);
    }
  }

  /** swapLongEdge on a consistent solution gives a consistent solution:
      its incremental score is the crossing number of the moved drawing. */
  lemma SwapLongEdgeConsistent(ins: Instance, s: Solution, le: Edge, position: int)
    requires Consistent(ins, s) && le in ins.longEdges && 0 <= position < Width(ins)
    ensures Consistent(ins, SwapLongEdge(ins, s, le, position))
    ensures SwapLongEdge(ins, s, le, position).objective == CrossingsOf(ins, SwapLongEdge(ins, s, le, position))
  {
    assert ChainWellFormed(ins, le);
    var layer := ins.layerOf[le.source];
    Occupant(ins, s, layer, position);
    var occupant := InputVertexAssignedTo(ins, s, layer, position);
    FastSwapIsSwap(ins, s, le.source, occupant);
    var s1 := FastSwap(ins, s, le.source, occupant);
    SwapChainConsistent(ins, s1, ins.chains[le], 0, position);
  }

  // ---------------------------------------------------------------------
  // The columns a long edge may move to

  /** getInputVertexAssignedTo of a complete embedding, with what it returns:
      the vertex of that layer standing in that column. */
  function OccupantAt(ins: Instance, s: Solution, layer: int, position: int): (v: int)
    requires Placed(ins, s) && 0 <= layer < ins.numberOfLayers && 0 <= position < Width(ins)
    ensures 0 <= v < ins.totalNumVertices && ins.layerOf[v] == layer && PositionOf(ins, s, v) == position
  {
    Occupant(ins, s, layer, position);
    InputVertexAssignedTo(ins, s, layer, position)
  }

  /** The vertex in column `position` of layer h is movable. */
  ghost predicate MovableAt(ins: Instance, s: Solution, h: int, position: int)
    requires Placed(ins, s) && 0 <= h < ins.numberOfLayers && 0 <= position < Width(ins)
  {
    Movable(ins, OccupantAt(ins, s, h, position))
  }

  /** isValidPosition: the vertices in column `position` of the layers
      layer + size down to layer are all movable (neither dummies nor long
      edge endpoints); size -1 is the empty range. */
  function IsValidPosition(ins: Instance, s: Solution, layer: int, size: int, position: int): (r: bool)
    requires Placed(ins, s) && 0 <= layer && -1 <= size && layer + size < ins.numberOfLayers
    requires 0 <= position < Width(ins)
    ensures r <==> forall h :: layer <= h <= layer + size ==> MovableAt(ins, s, h, position)
    decreases size + 1
  {
    if size == -1 then true
    else
      var vertex := OccupantAt(ins, s, layer + size, position);
      assert MovableAt(ins, s, layer + size, position) <==> !(IsDummy(ins, vertex) || HasLongEdge(ins, vertex));
      if IsDummy(ins, vertex) || HasLongEdge(ins, vertex) then false
      else IsValidPosition(ins, s, layer, size - 1, position)
  }

  /** A column le may move to: not the source's own column, and in every
      layer from the source's to the target's the column holds a movable
      vertex. */
  ghost predicate FreeColumn(ins: Instance, s: Solution, le: Edge, c: int)
    requires Placed(ins, s) && le in ins.longEdges
  {
    assert ChainWellFormed(ins, le);
    var layer := ins.layerOf[le.source];
    && 0 <= c < Width(ins)
    && c != PositionOf(ins, s, le.source)
    && forall h :: layer <= h <= layer + |ins.chains[le]| ==> MovableAt(ins, s, h, c)
  }

  /** A column of the grid is free exactly when it is not the source's and
      isValidPosition accepts it for the chain's length. */
  lemma FreeColumnValid(ins: Instance, s: Solution, le: Edge, c: int)
    requires Placed(ins, s) && le in ins.longEdges && 0 <= c < Width(ins)
    ensures le in ins.chains && ins.layerOf[le.source] + |ins.chains[le]| < ins.numberOfLayers
    ensures 0 <= le.source < ins.totalNumVertices && 0 <= ins.layerOf[le.source]
    ensures FreeColumn(ins, s, le, c) <==>
      c != PositionOf(ins, s, le.source) && IsValidPosition(ins, s, ins.layerOf[le.source], |ins.chains[le]|, c)
  {
    assert ChainWellFormed(ins, le);
    assert LayersWellFormed(ins);
  }

  /** A strictly increasing list. */
  predicate Increasing(r: seq<int>)
  {
    forall a, b :: 0 <= a < b < |r| ==> r[a] < r[b]
  }

  /** A value below every element of an increasing list extends it. */
  lemma ConsAscending(x: int, r: seq<int>)
    requires Increasing(r) && forall c :: c in r ==> x < c
    ensures Increasing([x] + r)
  {
    forall a, b | 0 <= a < b < |[x] + r| ensures ([x] + r)[a] < ([x] + r)[b] {
      assert r[b - 1] in r;
    }
  }

  /** The loop of getAvailablePositions from column i on, for a long edge
      whose source stands in column `source` of `layer` and whose chain has
      `size` edges. */
  function PositionsFrom(ins: Instance, s: Solution, layer: int, size: int, source: int, i: nat): (r: seq<int>)
    requires Placed(ins, s) && 0 <= layer && -1 <= size && layer + size < ins.numberOfLayers && i <= Width(ins)
    ensures forall c :: c in r <==> i <= c < Width(ins) && c != source && IsValidPosition(ins, s, layer, size, c)
    ensures Increasing(r)
    decreases Width(ins) - i
  {
    if i == Width(ins) then []
    else
      var rest := PositionsFrom(ins, s, layer, size, source, i + 1);
      if i != source && IsValidPosition(ins, s, layer, size, i)
      then
        ConsAscending(i, rest);
        [i] + rest
      else rest
  }

  /** getAvailablePositions: the free columns of le, in increasing order. */
  function AvailablePositions(ins: Instance, s: Solution, le: Edge): (r: seq<int>)
    requires Placed(ins, s) && le in ins.longEdges
    ensures forall c :: c in r <==> FreeColumn(ins, s, le, c)
    ensures Increasing(r)
  {
    assert ChainWellFormed(ins, le) && LayersWellFormed(ins);
    var layer := ins.layerOf[le.source];
    var r := PositionsFrom(ins, s, layer, |ins.chains[le]|, PositionOf(ins, s, le.source), 0);
    assert forall c :: c in r <==> FreeColumn(ins, s, le, c) by {
      forall c ensures c in r <==> FreeColumn(ins, s, le, c) {
        if 0 <= c < Width(ins) {
          FreeColumnValid(ins, s, le, c);
        }
      }
    }
    r
  }

  // ---------------------------------------------------------------------
  // One LEBI round

  /** Moves whose long edge is known and whose column lies in the grid. */
  ghost predicate ValidMoves(ins: Instance, moves: seq<(Edge, int)>)
    requires WellFormed(ins)
  {
    forall j :: 0 <= j < |moves| ==> moves[j].0 in ins.longEdges && 0 <= moves[j].1 < Width(ins)
  }

  /** The move (le, c) for every column c of cs. */
  function Tag(le: Edge, cs: seq<int>): (r: seq<(Edge, int)>)
    ensures forall m :: m in r <==> m.0 == le && m.1 in cs
  {
    if cs == [] then [] else [(le, cs[0])] + Tag(le, cs[1..])
  }

  /** The loops of one round: for every long edge of les in order, every
      available column of it on the incumbent s. */
  function ChainMoves(ins: Instance, s: Solution, les: seq<Edge>): (r: seq<(Edge, int)>)
    requires Placed(ins, s) && forall le :: le in les ==> le in ins.longEdges
    ensures ValidMoves(ins, r)
    ensures forall m :: m in r <==> m.0 in les && FreeColumn(ins, s, m.0, m.1)
  {
    if les == [] then []
    else
      assert les[0] in les;
      assert forall le :: le in les[1..] ==> le in les;
      Tag(les[0], AvailablePositions(ins, s, les[0])) + ChainMoves(ins, s, les[1..])
  }

  /** The copies a round tries: the incumbent with each move applied. */
  function Candidates(ins: Instance, best: Solution, moves: seq<(Edge, int)>): (r: seq<Solution>)
    requires Placed(ins, best) && ValidMoves(ins, moves)
    ensures |r| == |moves|
    ensures forall j :: 0 <= j < |r| ==> Placed(ins, r[j]) && r[j] == SwapLongEdge(ins, best, moves[j].0, moves[j].1)
  {
    seq(|moves|, j requires 0 <= j < |moves| => SwapLongEdge(ins, best, moves[j].0, moves[j].1))
  }

  /** On a consistent incumbent a move beats it exactly when it lowers the
      crossing number. */
  lemma ImprovingIff(ins: Instance, s: Solution, le: Edge, c: int)
    requires Consistent(ins, s) && le in ins.longEdges && 0 <= c < Width(ins)
    ensures Consistent(ins, SwapLongEdge(ins, s, le, c))
    ensures IsBetterThan(ins, SwapLongEdge(ins, s, le, c), s) <==> CrossingsOf(ins, SwapLongEdge(ins, s, le, c)) < CrossingsOf(ins, s)
  {
    SwapLongEdgeConsistent(ins, s, le, c);
    ScoreOfConsistent(ins, s);
    ScoreOfConsistent(ins, SwapLongEdge(ins, s, le, c));
  }

  /** The loops of one LEBI round from candidate k on: every candidate is a
      fresh copy of the incumbent `best` with one move made, and one that
      beats `best` becomes the round's result `temp`. */
  function LebiFrom(ins: Instance, best: Solution, cands: seq<Solution>, k: nat, temp: Solution, improved: bool): (r: (Solution, bool))
    requires WellFormed(ins) && Shaped(ins, best) && Shaped(ins, temp) && k <= |cands|
    requires forall j :: 0 <= j < |cands| ==> Shaped(ins, cands[j])
    ensures Shaped(ins, r.0)
    ensures r.1 <==> improved || exists j :: k <= j < |cands| && IsBetterThan(ins, cands[j], best)
    decreases |cands| - k
  {
    if k == |cands| then (temp, improved)
    else
      var cand := cands[k];
      if IsBetterThan(ins, cand, best) then LebiFrom(ins, best, cands, k + 1, cand, true)
      else LebiFrom(ins, best, cands, k + 1, temp, improved)
  }

  /** What a round keeps: its starting `temp` when no candidate from k on
      beats the incumbent, otherwise the last candidate that does. */
  lemma {:induction false} LebiFromLast(ins: Instance, best: Solution, cands: seq<Solution>, k: nat, temp: Solution, improved: bool)
    requires WellFormed(ins) && Shaped(ins, best) && Shaped(ins, temp) && k <= |cands|
    requires forall j :: 0 <= j < |cands| ==> Shaped(ins, cands[j])
    ensures (forall j :: k <= j < |cands| ==> !IsBetterThan(ins, cands[j], best)) ==>
      LebiFrom(ins, best, cands, k, temp, improved) == (temp, improved)
    ensures (exists j :: k <= j < |cands| && IsBetterThan(ins, cands[j], best)) ==>
      exists j :: && k <= j < |cands| && IsBetterThan(ins, cands[j], best)
                  && LebiFrom(ins, best, cands, k, temp, improved).0 == cands[j]
                  && forall i :: j < i < |cands| ==> !IsBetterThan(ins, cands[i], best)
    decreases |cands| - k
  {
    if k < |cands| {
      var beats := IsBetterThan(ins, cands[k], best);
      var nextTemp := if beats then cands[k] else temp;
      var nextImproved := if beats then true else improved;
      assert LebiFrom(ins, best, cands, k, temp, improved) == LebiFrom(ins, best, cands, k + 1, nextTemp, nextImproved);
      LebiFromLast(ins, best, cands, k + 1, nextTemp, nextImproved);
      if !exists j :: k + 1 <= j < |cands| && IsBetterThan(ins, cands[j], best) {
        if beats {
          assert LebiFrom(ins, best, cands, k, temp, improved).0 == cands[k];
        }
      }
    }
  }

  // ---------------------------------------------------------------------
  // LEBI

  /** No move of a long edge onto one of its free columns lowers the
      crossing number: the local optimum LEBI stops in. */
  ghost predicate ChainOptimal(ins: Instance, s: Solution)
    requires Placed(ins, s)
  {
    forall le, c :: le in ins.longEdges && FreeColumn(ins, s, le, c) ==>
      CrossingsOf(ins, SwapLongEdge(ins, s, le, c)) >= CrossingsOf(ins, s)
  }

  /** A round over every free column of every long edge that finds no
      candidate better than the incumbent certifies a chain optimum. */
  lemma NoImprovingOptimal(ins: Instance, s: Solution, moves: seq<(Edge, int)>)
    requires Consistent(ins, s) && ValidMoves(ins, moves)
    requires forall le, c :: le in ins.longEdges && FreeColumn(ins, s, le, c) ==> (le, c) in moves
    requires forall j :: 0 <= j < |moves| ==> !IsBetterThan(ins, Candidates(ins, s, moves)[j], s)
    ensures ChainOptimal(ins, s)
  {
    var cands := Candidates(ins, s, moves);
    forall le, c | le in ins.longEdges && FreeColumn(ins, s, le, c)
      ensures CrossingsOf(ins, SwapLongEdge(ins, s, le, c)) >= CrossingsOf(ins, s)
    {
      var j :| 0 <= j < |moves| && moves[j] == (le, c);
      assert cands[j] == SwapLongEdge(ins, s, le, c);
      ImprovingIff(ins, s, le, c);
    }
  }

  /** A move onto a free column that beats a consistent incumbent leaves a
      consistent solution with fewer crossings, so the incumbent was no
      chain optimum. */
  lemma ImprovingMove(ins: Instance, s: Solution, le: Edge, c: int)
    requires Consistent(ins, s) && le in ins.longEdges && FreeColumn(ins, s, le, c)
    requires IsBetterThan(ins, SwapLongEdge(ins, s, le, c), s)
    ensures Consistent(ins, SwapLongEdge(ins, s, le, c)) && SwapLongEdge(ins, s, le, c).objective < s.objective
    ensures !ChainOptimal(ins, s)
  {
    ImprovingIff(ins, s, le, c);
  }

  /** The result of a round that found an improving move is such a move. */
  lemma ImprovedRound(ins: Instance, s: Solution, moves: seq<(Edge, int)>, t: Solution)
    requires Consistent(ins, s) && ValidMoves(ins, moves)
    requires forall m :: m in moves ==> m.0 in ins.longEdges && FreeColumn(ins, s, m.0, m.1)
    requires exists j :: 0 <= j < |moves| && t == Candidates(ins, s, moves)[j] && IsBetterThan(ins, t, s)
    ensures Consistent(ins, t) && t.objective < s.objective
    ensures !ChainOptimal(ins, s)
  {
    var cands := Candidates(ins, s, moves);
    var j :| 0 <= j < |moves| && t == cands[j] && IsBetterThan(ins, t, s);
    var le, c := moves[j].0, moves[j].1;
    assert moves[j] in moves;
    assert le in ins.longEdges && FreeColumn(ins, s, le, c);
    assert t == SwapLongEdge(ins, s, le, c);
    ImprovingMove(ins, s, le, c);
  }

  /** LocalSearchSwLEBI: rounds over every long edge and free column until a
      round finds no move that beats the incumbent. The search ends in a
      chain optimum and returns its input exactly when the input already is
      one. */
  function Lebi(ins: Instance, s: Solution): (r: Solution)
    requires Consistent(ins, s)
    ensures Consistent(ins, r) && ChainOptimal(ins, r)
    ensures r.objective <= s.objective
    ensures r == s <==> ChainOptimal(ins, s)
    decreases s.objective
  {
    CrossingsNonneg(ins, s);
    var moves := ChainMoves(ins, s, ins.longEdges);
    var cands := Candidates(ins, s, moves);
    var round := LebiFrom(ins, s, cands, 0, s, false);
    LebiFromLast(ins, s, cands, 0, s, false);
    if !round.1 then
      NoImprovingOptimal(ins, s, moves);
      s
    else
      ImprovedRound(ins, s, moves, round.0);
      Lebi(ins, round.0)
  }
}
