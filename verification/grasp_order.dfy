/** The order in which the GRASP constructor places its long edges
    (sortListOfLongEdges, updateListByMcallister) and its remaining real
    vertices (sortListOfRemainingVertices, updateListByMcallister): a
    shuffle, a sort by chain length, or the McAllister scores, which are
    recomputed incrementally after each placement and re-sorted in
    descending order. */
module GraspOrder {
  import opened GraphModel
  import opened PlacementRules
  import opened GraspRules

  // ---------------------------------------------------------------------
  // Sorting by a score map

  /** The key of comparingDouble(mcallister::get).reversed(): the stable
      ascending sort on the negated score puts higher scores first. */
  function Descending<K>(m: map<K, real>): K -> real
  {
    k => if k in m then -m[k] else 0.0
  }

  /** list.sort(comparingDouble(mcallister::get).reversed()): a permutation
      of the list in which, when every member has a score, the scores never
      increase. */
  function ByScore<K>(xs: seq<K>, m: map<K, real>): (r: seq<K>)
    ensures multiset(r) == multiset(xs) && |r| == |xs|
    ensures (forall k :: k in xs ==> k in m) ==>
      (forall i :: 0 <= i < |r| ==> r[i] in m) && forall i, j :: 0 <= i < j < |r| ==> m[r[i]] >= m[r[j]]
  {
    var r := SortBy(xs, Descending(m));
    DescendingSorted(xs, m, r);
    r
  }

  /** A list sorted by the negated scores of a map that scores all of its
      members has non-increasing scores. */
  lemma DescendingSorted<K>(xs: seq<K>, m: map<K, real>, r: seq<K>)
    requires multiset(r) == multiset(xs) && SortedBy(r, Descending(m))
    ensures (forall k :: k in xs ==> k in m) ==>
      (forall i :: 0 <= i < |r| ==> r[i] in m) && forall i, j :: 0 <= i < j < |r| ==> m[r[i]] >= m[r[j]]
  {
    if forall k :: k in xs ==> k in m {
      forall i | 0 <= i < |r| ensures r[i] in m {
        assert r[i] in multiset(r);
      }
      forall i, j | 0 <= i < j < |r| ensures m[r[i]] >= m[r[j]] {
        assert Descending(m)(r[i]) <= Descending(m)(r[j]);
      }
    }
  }

  // ---------------------------------------------------------------------
  // Long edges

  /** getListOfShortEdgesOfLongEdge(e).size(): the number of layers e spans. */
  function ChainLength(ins: Instance, e: Edge): int
  {
    if e in ins.chains then |ins.chains[e]| else 0
  }

  /** Both endpoints of every listed long edge have adjacency lists. */
  predicate EndpointsKnown(ins: Instance, les: seq<Edge>)
  {
    forall le :: le in les ==> le.source in ins.adjacency && le.target in ins.adjacency
  }

  /** The long edges of a well-formed instance have known endpoints. */
  lemma LongEdgesKnown(ins: Instance)
    requires WellFormed(ins)
    ensures EndpointsKnown(ins, ins.longEdges)
  {
    forall le | le in ins.longEdges ensures le.source in ins.adjacency && le.target in ins.adjacency {
      LongEdgeSpan(ins, le);
      assert AdjacencyWellFormed(ins);
    }
  }

  /** getSetOfAdjacentVerticesWithLongEdgesOfLongEdge. */
  function Neighbourhood(ins: Instance, le: Edge): (r: set<int>)
    requires le.source in ins.adjacency && le.target in ins.adjacency
    ensures forall v :: v in r <==>
      (v in AdjacentList(ins, le.source, All) || v in AdjacentList(ins, le.target, All)) && HasLongEdge(ins, v)
  {
    LongEdgeNeighbourhood(ins, le)
  }

  /** initMcallister for a long edge: -LE_w2 for every long-edge endpoint
      next to its source or target. */
  function LongEdgeBase(ins: Instance, w2: real, le: Edge): real
    requires le.source in ins.adjacency && le.target in ins.adjacency
  {
    |Neighbourhood(ins, le)| as real * -w2
  }

  /** The initial score map: one entry per listed long edge. */
  function InitLongEdgeScores(ins: Instance, w2: real, les: seq<Edge>): (m: map<Edge, real>)
    requires EndpointsKnown(ins, les)
    ensures forall le :: le in m <==> le in les
  {
    map le | le in les :: LongEdgeBase(ins, w2, le)
  }

  /** updateListByMcallister, map part: the placed long edge leaves the map
      and every other long edge gains one point for each endpoint of the
      placed one in its neighbourhood. */
  function UpdateLongEdgeScores(ins: Instance, m: map<Edge, real>, le: Edge): (r: map<Edge, real>)
    requires forall k :: k in m ==> k.source in ins.adjacency && k.target in ins.adjacency
    ensures forall k :: k in r <==> k in m && k != le
  {
    map k | k in m && k != le ::
      m[k] + (if le.source in Neighbourhood(ins, k) then 1.0 else 0.0)
           + (if le.target in Neighbourhood(ins, k) then 1.0 else 0.0)
  }

  /** How many endpoints of the placed long edges lie in k's neighbourhood. */
  function EndpointHits(ins: Instance, k: Edge, placed: seq<Edge>): nat
    requires k.source in ins.adjacency && k.target in ins.adjacency
  {
    if |placed| == 0 then 0
    else
      var e := placed[|placed| - 1];
      EndpointHits(ins, k, placed[..|placed| - 1])
        + (if e.source in Neighbourhood(ins, k) then 1 else 0)
        + (if e.target in Neighbourhood(ins, k) then 1 else 0)
  }

  /** One more placed long edge adds its endpoints in k's neighbourhood. */
  lemma EndpointHitsSnoc(ins: Instance, k: Edge, placed: seq<Edge>, le: Edge)
    requires k.source in ins.adjacency && k.target in ins.adjacency
    ensures EndpointHits(ins, k, placed + [le]) == EndpointHits(ins, k, placed)
      + (if le.source in Neighbourhood(ins, k) then 1 else 0) + (if le.target in Neighbourhood(ins, k) then 1 else 0)
  {
    assert (placed + [le])[..|placed + [le]| - 1] == placed;
  }

  /** The score of every long edge still in the map is its initial score
      plus one point per endpoint of a placed long edge next to it. */
  ghost predicate LongEdgeScoresTrack(ins: Instance, w2: real, m: map<Edge, real>, placed: seq<Edge>)
  {
    forall k :: k in m ==>
      k.source in ins.adjacency && k.target in ins.adjacency &&
      m[k] == LongEdgeBase(ins, w2, k) + EndpointHits(ins, k, placed) as real
  }

  /** The initial map scores nothing placed yet. */
  lemma InitLongEdgeScoresTrack(ins: Instance, w2: real, les: seq<Edge>)
    requires EndpointsKnown(ins, les)
    ensures LongEdgeScoresTrack(ins, w2, InitLongEdgeScores(ins, w2, les), [])
  {
  }

  /** Each update keeps the closed form, with the placed long edge appended
      to the placed ones and dropped from the map. */
  lemma UpdateLongEdgeScoresTrack(ins: Instance, w2: real, m: map<Edge, real>, placed: seq<Edge>, le: Edge)
    requires LongEdgeScoresTrack(ins, w2, m, placed)
    ensures LongEdgeScoresTrack(ins, w2, UpdateLongEdgeScores(ins, m, le), placed + [le])
    ensures le !in UpdateLongEdgeScores(ins, m, le)
  {
    var r := UpdateLongEdgeScores(ins, m, le);
    forall k | k in r ensures k.source in ins.adjacency && k.target in ins.adjacency && r[k] == LongEdgeBase(ins, w2, k) + EndpointHits(ins, k, placed + [le]) as real {
      EndpointHitsSnoc(ins, k, placed, le);
    }
  }

  /** list.sort(comparingInt(size)) and its reversal: a stable sort by
      chain length, shortest or longest first. */
  function ByLength(ins: Instance, les: seq<Edge>, shortestFirst: bool): (r: seq<Edge>)
    ensures multiset(r) == multiset(les) && |r| == |les|
    ensures shortestFirst ==> forall i, j :: 0 <= i < j < |r| ==> ChainLength(ins, r[i]) <= ChainLength(ins, r[j])
    ensures !shortestFirst ==> forall i, j :: 0 <= i < j < |r| ==> ChainLength(ins, r[i]) >= ChainLength(ins, r[j])
  {
    var key := (e: Edge) => if shortestFirst then ChainLength(ins, e) as real else -(ChainLength(ins, e) as real);
    var r := SortBy(les, key);
    assert forall i, j :: 0 <= i < j < |r| ==> key(r[i]) <= key(r[j]);
    r
  }

  /** initMcallister followed by the sort: the long edges by descending
      initial score. */
  function McAllisterLongEdges(ins: Instance, w2: real, les: seq<Edge>): (r: (seq<Edge>, map<Edge, real>))
    requires EndpointsKnown(ins, les)
    ensures multiset(r.0) == multiset(les) && |r.0| == |les|
    ensures r.1 == InitLongEdgeScores(ins, w2, les)
    ensures forall i :: 0 <= i < |r.0| ==> r.0[i] in r.1
    ensures forall i, j :: 0 <= i < j < |r.0| ==> r.1[r.0[i]] >= r.1[r.0[j]]
  {
    var m := InitLongEdgeScores(ins, w2, les);
    var r := ByScore(les, m);
    assert forall i :: 0 <= i < |r| ==> r[i] in m;
    (r, m)
  }

  /** The deterministic criteria of sortListOfLongEdges: the longest or the
      shortest chains first (ties in input order), or the McAllister order.
      Returns the order and the McAllister scores (empty unless that
      criterion sorted). */
  function SortLongEdges(ins: Instance, sel: LongEdgeSelection, w2: real, les: seq<Edge>): (r: (seq<Edge>, map<Edge, real>))
    requires EndpointsKnown(ins, les)
    ensures multiset(r.0) == multiset(les) && |r.0| == |les|
    ensures sel == LongestFirst ==>
      forall i, j :: 0 <= i < j < |r.0| ==> ChainLength(ins, r.0[i]) >= ChainLength(ins, r.0[j])
    ensures sel == ShortestFirst ==>
      forall i, j :: 0 <= i < j < |r.0| ==> ChainLength(ins, r.0[i]) <= ChainLength(ins, r.0[j])
    ensures sel == LeMcAllister ==>
      && r.1 == InitLongEdgeScores(ins, w2, les)
      && (forall i :: 0 <= i < |r.0| ==> r.0[i] in r.1)
      && (forall i, j :: 0 <= i < j < |r.0| ==> r.1[r.0[i]] >= r.1[r.0[j]])
    ensures sel != LeMcAllister ==> r.1 == map[]
    ensures sel == LeRandom ==> r.0 == les
  {
    match sel
    case LeRandom => (les, map[])
    case LongestFirst => (ByLength(ins, les, false), map[])
    case ShortestFirst => (ByLength(ins, les, true), map[])
    case LeMcAllister => McAllisterLongEdges(ins, w2, les)
  }

  /** sortListOfLongEdges: lists of one or no long edge are left alone;
      otherwise RANDOM shuffles with the draws and the other criteria sort.
      Returns the order, the McAllister scores and the remaining draws. */
  function LongEdgeOrder(ins: Instance, cfg: GraspConfig, rnd: seq<nat>): (r: (seq<Edge>, map<Edge, real>, seq<nat>))
    requires EndpointsKnown(ins, ins.longEdges)
    ensures multiset(r.0) == multiset(ins.longEdges) && |r.0| == |ins.longEdges|
    ensures |ins.longEdges| <= 1 ==> r.0 == ins.longEdges && r.1 == map[] && r.2 == rnd
    ensures |ins.longEdges| > 1 && cfg.leSelection == LeRandom ==> r.1 == map[]
    ensures |ins.longEdges| > 1 && cfg.leSelection != LeRandom ==>
      (r.0, r.1) == SortLongEdges(ins, cfg.leSelection, cfg.leW2, ins.longEdges) && r.2 == rnd
  {
    var les := ins.longEdges;
    if |les| <= 1 then (les, map[], rnd)
    else if cfg.leSelection == LeRandom then
      var sh := Shuffle(les, rnd);
      (sh.0, map[], sh.1)
    else
      var sorted := SortLongEdges(ins, cfg.leSelection, cfg.leW2, les);
      (sorted.0, sorted.1, rnd)
  }

  /** The McAllister step after a long edge is placed: the scores are
      updated and the rest of the list re-sorted by them. */
  function NextLongEdges(ins: Instance, rest: seq<Edge>, m: map<Edge, real>, le: Edge): (r: (seq<Edge>, map<Edge, real>))
    requires forall k :: k in m ==> k.source in ins.adjacency && k.target in ins.adjacency
    ensures multiset(r.0) == multiset(rest) && |r.0| == |rest|
    ensures forall k :: k in r.1 <==> k in m && k != le
    ensures (forall k :: k in rest ==> k in r.1) ==>
      (forall i :: 0 <= i < |r.0| ==> r.0[i] in r.1) && forall i, j :: 0 <= i < j < |r.0| ==> r.1[r.0[i]] >= r.1[r.0[j]]
  {
    var m1 := UpdateLongEdgeScores(ins, m, le);
    (ByScore(rest, m1), m1)
  }

  // ---------------------------------------------------------------------
  // Remaining vertices

  /** initMcallister for a vertex, accumulated over its ALL list: +SE_w1
      for each neighbour already placed, -SE_w2 for each other one. */
  function AdjacencyScore(us: seq<int>, added: set<int>, w1: real, w2: real): real
  {
    if |us| == 0 then 0.0
    else AdjacencyScore(us[..|us| - 1], added, w1, w2) + (if us[|us| - 1] in added then w1 else -w2)
  }

  /** The number of entries of us that are placed. */
  function CountPlaced(us: seq<int>, added: set<int>): (n: nat)
    ensures n <= |us|
  {
    if |us| == 0 then 0
    else CountPlaced(us[..|us| - 1], added) + (if us[|us| - 1] in added then 1 else 0)
  }

  /** The accumulated score in closed form: SE_w1 per placed entry minus
      SE_w2 per unplaced entry. */
  lemma {:induction false} AdjacencyScoreClosed(us: seq<int>, added: set<int>, w1: real, w2: real)
    ensures AdjacencyScore(us, added, w1, w2) ==
      w1 * CountPlaced(us, added) as real - w2 * (|us| - CountPlaced(us, added)) as real
    decreases |us|
  {
    if |us| > 0 {
      AdjacencyScoreClosed(us[..|us| - 1], added, w1, w2);
    }
  }

  /** The number of entries of us equal to p. */
  function Occurrences(us: seq<int>, p: int): (n: nat)
    ensures n == 0 <==> p !in us
  {
    if |us| == 0 then 0
    else
      assert forall x :: x in us <==> x in us[..|us| - 1] || x == us[|us| - 1];
      Occurrences(us[..|us| - 1], p) + (if us[|us| - 1] == p then 1 else 0)
  }

  /** Placing a vertex that is not in the list leaves the score alone. */
  lemma {:induction false} AdjacencyScoreAbsent(us: seq<int>, added: set<int>, p: int, w1: real, w2: real)
    requires p !in us
    ensures AdjacencyScore(us, added + {p}, w1, w2) == AdjacencyScore(us, added, w1, w2)
    decreases |us|
  {
    if |us| > 0 {
      assert us[|us| - 1] != p;
      assert p !in us[..|us| - 1];
      AdjacencyScoreAbsent(us[..|us| - 1], added, p, w1, w2);
    }
  }

  /** Placing a vertex that is once in the list turns its -SE_w2 into
      +SE_w1. */
  lemma {:induction false} AdjacencyScoreOnce(us: seq<int>, added: set<int>, p: int, w1: real, w2: real)
    requires p !in added && Occurrences(us, p) == 1
    ensures AdjacencyScore(us, added + {p}, w1, w2) == AdjacencyScore(us, added, w1, w2) + w1 + w2
    decreases |us|
  {
    var init := us[..|us| - 1];
    if us[|us| - 1] == p {
      AdjacencyScoreAbsent(init, added, p, w1, w2);
    } else {
      AdjacencyScoreOnce(init, added, p, w1, w2);
    }
  }

  /** The initial score of a remaining vertex. */
  function VertexBase(ins: Instance, w1: real, w2: real, added: set<int>, v: int): real
    requires v in ins.adjacency
  {
    AdjacencyScore(AdjacentList(ins, v, All), added, w1, w2)
  }

  /** The initial score map: one entry per listed vertex. */
  function InitVertexScores(ins: Instance, w1: real, w2: real, added: set<int>, vs: seq<int>): (m: map<int, real>)
    requires forall v :: v in vs ==> v in ins.adjacency
    ensures forall v :: v in m <==> v in vs
  {
    map v | v in vs :: VertexBase(ins, w1, w2, added, v)
  }

  /** updateListByMcallister, map part: the placed vertex leaves the map and
      every vertex whose ALL list contains it gains one point. */
  function UpdateVertexScores(ins: Instance, m: map<int, real>, prev: int): (r: map<int, real>)
    requires forall k :: k in m ==> k in ins.adjacency
    ensures forall k :: k in r <==> k in m && k != prev
  {
    map k | k in m && k != prev :: m[k] + (if prev in AdjacentList(ins, k, All) then 1.0 else 0.0)
  }

  /** The incremental update agrees with recomputing initMcallister with the
      placed vertex added, provided the weights sum to one (as the
      constructor demands) and the placed vertex is at most once in each
      list. */
  lemma UpdateVertexScoresRecompute(ins: Instance, w1: real, w2: real, added: set<int>, m: map<int, real>, prev: int)
    requires forall k :: k in m ==> k in ins.adjacency
    requires forall k :: k in m ==> m[k] == VertexBase(ins, w1, w2, added, k)
    requires w1 + w2 == 1.0 && prev !in added
    requires forall k :: k in m ==> Occurrences(AdjacentList(ins, k, All), prev) <= 1
    ensures forall k :: k in UpdateVertexScores(ins, m, prev) ==>
      UpdateVertexScores(ins, m, prev)[k] == VertexBase(ins, w1, w2, added + {prev}, k)
  {
    forall k | k in UpdateVertexScores(ins, m, prev)
      ensures UpdateVertexScores(ins, m, prev)[k] == VertexBase(ins, w1, w2, added + {prev}, k)
    {
      var us := AdjacentList(ins, k, All);
      if prev in us {
        AdjacencyScoreOnce(us, added, prev, w1, w2);
      } else {
        AdjacencyScoreAbsent(us, added, prev, w1, w2);
      }
    }
  }

  /** The real vertices of the given enumeration that are not placed yet, in
      that order (the stream filter of addRemainingVertices). */
  function Unplaced(order: seq<int>, added: set<int>): (r: seq<int>)
    ensures forall v :: v in r <==> v in order && v !in added
    ensures NoRepeats(order) ==> NoRepeats(r)
    ensures |r| <= |order|
  {
    if |order| == 0 then []
    else
      var r0 := Unplaced(order[..|order| - 1], added);
      var v := order[|order| - 1];
      assert forall u :: u in order <==> u in order[..|order| - 1] || u == v;
      assert NoRepeats(order) ==> NoRepeats(order[..|order| - 1]) && v !in order[..|order| - 1];
      r0 + (if v in added then [] else [v])
  }

  /** sortListOfRemainingVertices: lists of one or no vertex are left alone;
      otherwise a shuffle or the McAllister order. Returns the order, the
      McAllister scores (empty unless that criterion sorted) and the
      remaining draws. */
  function VertexOrder(ins: Instance, cfg: GraspConfig, added: set<int>, rem: seq<int>, rnd: seq<nat>): (r: (seq<int>, map<int, real>, seq<nat>))
    requires forall v :: v in rem ==> v in ins.adjacency
    ensures multiset(r.0) == multiset(rem) && |r.0| == |rem|
    ensures |rem| <= 1 ==> r.0 == rem
    ensures |rem| > 1 && cfg.selection == VsMcAllister ==>
      && r.1 == InitVertexScores(ins, cfg.seW1, cfg.seW2, added, rem)
      && (forall i :: 0 <= i < |r.0| ==> r.0[i] in r.1)
      && (forall i, j :: 0 <= i < j < |r.0| ==> r.1[r.0[i]] >= r.1[r.0[j]])
    ensures !(|rem| > 1 && cfg.selection == VsMcAllister) ==> r.1 == map[]
    ensures !(|rem| > 1 && cfg.selection == VsRandom) ==> r.2 == rnd
  {
    if |rem| <= 1 then (rem, map[], rnd)
    else
      match cfg.selection
      case VsRandom =>
        var sh := Shuffle(rem, rnd);
        (sh.0, map[], sh.1)
      case VsMcAllister =>
        var m := InitVertexScores(ins, cfg.seW1, cfg.seW2, added, rem);
        var r := ByScore(rem, m);
        assert forall i :: 0 <= i < |r| ==> r[i] in m;
        (r, m, rnd)
  }

  /** The McAllister step after a vertex is placed: the scores are updated
      and the rest of the list re-sorted by them. */
  function NextVertices(ins: Instance, rest: seq<int>, m: map<int, real>, v: int): (r: (seq<int>, map<int, real>))
    requires forall k :: k in m ==> k in ins.adjacency
    ensures multiset(r.0) == multiset(rest) && |r.0| == |rest|
    ensures forall k :: k in r.1 <==> k in m && k != v
    ensures (forall k :: k in rest ==> k in r.1) ==>
      (forall i :: 0 <= i < |r.0| ==> r.0[i] in r.1) && forall i, j :: 0 <= i < j < |r.0| ==> r.1[r.0[i]] >= r.1[r.0[j]]
  {
    var m1 := UpdateVertexScores(ins, m, v);
    var r := ByScore(rest, m1);
    assert (forall k :: k in rest ==> k in m1) ==> forall i :: 0 <= i < |r| ==> r[i] in m1;
    (r, m1)
  }
}
