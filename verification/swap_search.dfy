/** The three swap local searches: SEBI (best improvement read off the
    crossing matrix, committed with swap), SEFI (first improvement from a
    random layer, committed with fastSwap) and NOFACTSEBI (best improvement
    by trying every swap on a copy). They exchange two vertices of one
    layer that are neither dummies nor endpoints of a long edge, and stop
    after a round that finds no improving exchange. */
module SwapSearch {
  import opened Sums
  import opened GraphModel
  import opened Crossing
  import opened Solutions
  import opened RecountProofs
  import opened FastSwapCorrect
  import opened GraspRules

  // ---------------------------------------------------------------------
  // The candidate pairs

  /** The vertices a swap search may move: neither a dummy nor an endpoint
      of a long edge. */
  predicate Movable(ins: Instance, v: int)
  {
    !IsDummy(ins, v) && !HasLongEdge(ins, v)
  }

  /** A list without repetitions. */
  predicate Distinct(L: seq<int>)
  {
    forall a, b :: 0 <= a < b < |L| ==> L[a] != L[b]
  }

  /** The inner loop for the vertex at index a of the layer list: the pairs
      (L[a], L[b]) for b = j, j + 1, ... with L[b] movable. */
  function PairsWith(ins: Instance, L: seq<int>, a: nat, j: nat): (r: seq<(int, int)>)
    requires a < |L| && j <= |L|
    ensures forall q :: q in r ==> q.0 == L[a] && q.1 in L[j..] && Movable(ins, q.1)
    ensures forall b :: j <= b < |L| && Movable(ins, L[b]) ==> (L[a], L[b]) in r
    decreases |L| - j
  {
    if j == |L| then []
    else
      var rest := PairsWith(ins, L, a, j + 1);
      assert forall x :: x in L[j + 1..] ==> x in L[j..];
      (if Movable(ins, L[j]) then [(L[a], L[j])] else []) + rest
  }

  /** The two nested loops over one layer list, from index i: every pair of
      movable vertices, the earlier one first, in loop order. */
  function LayerPairs(ins: Instance, L: seq<int>, i: nat): (r: seq<(int, int)>)
    requires i <= |L| && Distinct(L)
    ensures forall q :: q in r ==> q.0 in L && q.1 in L && q.0 != q.1 && Movable(ins, q.0) && Movable(ins, q.1)
    ensures forall a, b :: i <= a < b < |L| && Movable(ins, L[a]) && Movable(ins, L[b]) ==> (L[a], L[b]) in r
    decreases |L| - i
  {
    if i == |L| then []
    else
      var rest := LayerPairs(ins, L, i + 1);
      if Movable(ins, L[i]) then
        var own := PairsWith(ins, L, i, i + 1);
        assert forall q :: q in own ==> q.1 != L[i] by {
          forall q | q in own ensures q.1 != L[i] {
            var b :| i + 1 <= b < |L| && L[b] == q.1;
          }
        }
        own + rest
      else rest
  }

  /** Every layer listed in `layers` is a layer of the instance. */
  predicate LayersIn(ins: Instance, layers: seq<int>)
  {
    forall h :: h in layers ==> 0 <= h < ins.numberOfLayers
  }

  /** Every pair joins two distinct movable vertices of one layer. */
  ghost predicate SwapPairs(ins: Instance, cands: seq<(int, int)>)
    requires WellFormed(ins)
  {
    forall q :: q in cands ==>
      && 0 <= q.0 < ins.totalNumVertices && 0 <= q.1 < ins.totalNumVertices
      && q.0 != q.1 && ins.layerOf[q.0] == ins.layerOf[q.1]
      && Movable(ins, q.0) && Movable(ins, q.1)
  }

  /** A layer list holds distinct vertices of that layer. */
  lemma LayerList(ins: Instance, h: int)
    requires WellFormed(ins) && 0 <= h < ins.numberOfLayers
    ensures h in ins.verticesInLayer && Distinct(ins.verticesInLayer[h])
    ensures forall v :: v in ins.verticesInLayer[h] <==> 0 <= v < ins.totalNumVertices && ins.layerOf[v] == h
  {
    assert LayersWellFormed(ins);
    assert LayerListExact(ins, h);
  }

  /** The pairs the search visits when it scans the layers in the order
      `layers`. */
  function SwapCandidates(ins: Instance, layers: seq<int>): (r: seq<(int, int)>)
    requires WellFormed(ins) && LayersIn(ins, layers)
    ensures SwapPairs(ins, r)
    ensures forall u, v ::
      (&& 0 <= u < ins.totalNumVertices && 0 <= v < ins.totalNumVertices && u != v
       && ins.layerOf[u] == ins.layerOf[v] && ins.layerOf[u] in layers
       && Movable(ins, u) && Movable(ins, v)) ==> (u, v) in r || (v, u) in r
    decreases |layers|
  {
    if |layers| == 0 then []
    else
      var h := layers[0];
      assert h in layers;
      LayerList(ins, h);
      var L := ins.verticesInLayer[h];
      assert forall x :: x in layers[1..] ==> x in layers;
      var rest := SwapCandidates(ins, layers[1..]);
      var own := LayerPairs(ins, L, 0);
      forall u, v | 0 <= u < ins.totalNumVertices && 0 <= v < ins.totalNumVertices && u != v &&
                    ins.layerOf[u] == ins.layerOf[v] == h && Movable(ins, u) && Movable(ins, v)
        ensures (u, v) in own || (v, u) in own
      {
        var a :| 0 <= a < |L| && L[a] == u;
        var b :| 0 <= b < |L| && L[b] == v;
      }
      assert forall x :: x in layers ==> x == h || x in layers[1..];
      own + rest
  }

  /** The layers 0 .. nl - 1 in order: the scan of SEBI and NOFACTSEBI. */
  function AllLayers(nl: nat): (r: seq<int>)
    ensures |r| == nl && forall l :: 0 <= l < nl ==> r[l] == l
    ensures forall l :: l in r <==> 0 <= l < nl
  {
    var r := seq(nl, l => l);
    forall l | 0 <= l < nl ensures l in r {
      assert r[l] == l;
    }
    r
  }

  /** SEFI's scan: the layers from `initial` on, wrapping around. */
  function Rotation(nl: nat, initial: int): (r: seq<int>)
    requires nl > 0
    ensures |r| == nl && forall l :: l in r <==> 0 <= l < nl
  {
    var r := seq(nl, h => (h + initial) % nl);
    forall l | 0 <= l < nl ensures l in r {
      var h := (l - initial) % nl;
      ModUnique(l - initial, nl, (l - initial) / nl, h);
      ModUnique(h + initial, nl, -((l - initial) / nl), l);
      assert r[h] == l;
    }
    r
  }

  /** The remainder of x by n is the m of any x == k * n + m with 0 <= m < n. */
  lemma ModUnique(x: int, n: int, k: int, m: int)
    requires n > 0 && x == k * n + m && 0 <= m < n
    ensures x % n == m && x / n == k
  {
    var k1, m1 := x / n, x % n;
    assert x == k1 * n + m1;
    if k > k1 {
      MulAtLeast(k - k1, n);
    } else if k < k1 {
      MulAtLeast(k1 - k, n);
    }
  }

  lemma MulAtLeast(a: int, n: int)
    requires a >= 1 && n > 0
    ensures a * n >= n
  {
    assert a * n == (a - 1) * n + n;
  }

  // ---------------------------------------------------------------------
  // What an exchange is worth

  /** The crossing number is a count. */
  lemma CrossingsNonneg(ins: Instance, s: Solution)
    requires WellFormed(ins) && Shaped(ins, s)
    ensures CrossingsOf(ins, s) >= 0
  {
    var E := ins.shortEdges;
    var h := PairW(E, Restrict(ins.layerOf, ins.numberOfLayers, CutW(Positions(ins, s))));
    SquareNonneg(|E|, h);
  }

  /** Exchanging u with v is exchanging v with u. */
  lemma ExchangeSymmetric(ins: Instance, s: Solution, u: int, v: int)
    requires Placed(ins, s) && 0 <= u < ins.totalNumVertices && 0 <= v < ins.totalNumVertices
    ensures Exchange(ins, s, u, v) == Exchange(ins, s, v, u)
  {
    if u != v {
      var a := Exchange(ins, s, u, v);
      var b := Exchange(ins, s, v, u);
      assert a.input == b.input;
      assert a.host == b.host;
    }
  }

  /** getScore of a consistent solution is its crossing number, whether or
      not the cached score is the unset marker. */
  lemma ScoreOfConsistent(ins: Instance, s: Solution)
    requires Consistent(ins, s)
    ensures GetScore(ins, s).1 == CrossingsOf(ins, s)
  {
    if s.objective == IntMax {
      CountOntoCorrect(ins, s, s.cuts);
    }
  }

  /** getVariation of a candidate pair on the current solution. */
  function Variation(ins: Instance, s: Solution, q: (int, int)): int
    requires Placed(ins, s) && 0 <= q.0 < ins.totalNumVertices && 0 <= q.1 < ins.totalNumVertices
  {
    GetVariation(ins, s, q.0, q.1)
  }

  /** swap and fastSwap of a candidate pair of a consistent solution give the
      same consistent solution, whose score is the old one plus the pair's
      variation. */
  lemma SwapGain(ins: Instance, s: Solution, q: (int, int))
    requires Consistent(ins, s) && 0 <= q.0 < ins.totalNumVertices && 0 <= q.1 < ins.totalNumVertices
    requires ins.layerOf[q.0] == ins.layerOf[q.1]
    ensures Consistent(ins, Swap(ins, s, q.0, q.1))
    ensures FastSwap(ins, s, q.0, q.1) == Swap(ins, s, q.0, q.1)
    ensures Swap(ins, s, q.0, q.1).objective == s.objective + Variation(ins, s, q)
    ensures Swap(ins, s, q.0, q.1).objective == CrossingsOf(ins, Exchange(ins, s, q.0, q.1))
  {
    FastSwapIsSwap(ins, s, q.0, q.1);
    GetVariationCorrect(ins, s, q.0, q.1);
  }

  /** No exchange of two movable vertices of a layer lowers the crossing
      number: the local optimum the swap searches stop in. */
  ghost predicate SwapOptimal(ins: Instance, s: Solution)
    requires Placed(ins, s)
  {
    forall u, v :: 0 <= u < ins.totalNumVertices && 0 <= v < ins.totalNumVertices &&
                   ins.layerOf[u] == ins.layerOf[v] && Movable(ins, u) && Movable(ins, v) ==>
      CrossingsOf(ins, Exchange(ins, s, u, v)) >= CrossingsOf(ins, s)
  }

  /** A solution none of whose candidate pairs has a negative variation,
      scanned over every layer, is a swap optimum. */
  lemma NoGainOptimal(ins: Instance, s: Solution, cands: seq<(int, int)>)
    requires Consistent(ins, s) && SwapPairs(ins, cands)
    requires forall u, v ::
      (&& 0 <= u < ins.totalNumVertices && 0 <= v < ins.totalNumVertices && u != v
       && ins.layerOf[u] == ins.layerOf[v] && Movable(ins, u) && Movable(ins, v)) ==> (u, v) in cands || (v, u) in cands
    requires forall k :: 0 <= k < |cands| ==> Variation(ins, s, cands[k]) >= 0
    ensures SwapOptimal(ins, s)
  {
    forall u, v | 0 <= u < ins.totalNumVertices && 0 <= v < ins.totalNumVertices &&
                  ins.layerOf[u] == ins.layerOf[v] && Movable(ins, u) && Movable(ins, v)
      ensures CrossingsOf(ins, Exchange(ins, s, u, v)) >= CrossingsOf(ins, s)
    {
      if u == v {
        ExchangeSelf(ins, s, u);
      } else {
        ExchangeSymmetric(ins, s, u, v);
        var q := if (u, v) in cands then (u, v) else (v, u);
        var k :| 0 <= k < |cands| && cands[k] == q;
        GetVariationCorrect(ins, s, q.0, q.1);
      }
    }
  }

  // ---------------------------------------------------------------------
  // SEBI: the best exchange by getVariation, committed with swap

  /** The answer of the scan over the first n candidates: -1 when none of
      them has a negative variation, otherwise the index of the first
      candidate with the least variation, which is negative. */
  ghost predicate BestOf(ins: Instance, s: Solution, cands: seq<(int, int)>, n: int, best: int)
    requires Placed(ins, s) && SwapPairs(ins, cands) && 0 <= n <= |cands|
  {
    if best == -1 then forall j :: 0 <= j < n ==> Variation(ins, s, cands[j]) >= 0
    else
      && 0 <= best < n
      && Variation(ins, s, cands[best]) < 0
      && (forall j :: 0 <= j < n ==> Variation(ins, s, cands[j]) >= Variation(ins, s, cands[best]))
      && (forall j :: 0 <= j < best ==> Variation(ins, s, cands[j]) > Variation(ins, s, cands[best]))
  }

  /** The answer of the scan is determined by the candidates. */
  lemma BestOfUnique(ins: Instance, s: Solution, cands: seq<(int, int)>, n: int, a: int, b: int)
    requires Placed(ins, s) && SwapPairs(ins, cands) && 0 <= n <= |cands|
    requires BestOf(ins, s, cands, n, a) && BestOf(ins, s, cands, n, b)
    ensures a == b
  {
    if a != -1 && b != -1 {
      assert Variation(ins, s, cands[a]) == Variation(ins, s, cands[b]);
    }
  }

  /** The variation of each candidate pair, in scan order. */
  function Variations(ins: Instance, s: Solution, cands: seq<(int, int)>): (r: seq<int>)
    requires Placed(ins, s) && SwapPairs(ins, cands)
    ensures |r| == |cands|
    ensures forall j :: 0 <= j < |cands| ==> r[j] == Variation(ins, s, cands[j])
  {
    seq(|cands|, j requires 0 <= j < |cands| => assert cands[j] in cands; Variation(ins, s, cands[j]))
  }

  /** The scan over a sequence of variations from index k on, carrying the
      best index so far and its variation, which starts at 0; only a
      strictly smaller variation replaces it. */
  function ScanFrom(vals: seq<int>, k: nat, best: int, bestVariation: int): (r: int)
    requires k <= |vals|
    ensures r == best || k <= r < |vals|
    decreases |vals| - k
  {
    if k == |vals| then best
    else if vals[k] < bestVariation then ScanFrom(vals, k + 1, k, vals[k])
    else ScanFrom(vals, k + 1, best, bestVariation)
  }

  /** BestOf, read on the variations alone. */
  ghost predicate LeastFirst(vals: seq<int>, n: int, best: int)
    requires 0 <= n <= |vals|
  {
    if best == -1 then forall j :: 0 <= j < n ==> vals[j] >= 0
    else
      && 0 <= best < n
      && vals[best] < 0
      && (forall j :: 0 <= j < n ==> vals[j] >= vals[best])
      && (forall j :: 0 <= j < best ==> vals[j] > vals[best])
  }

  /** The scan keeps the first least negative variation. */
  lemma {:induction false} ScanFromIsLeast(vals: seq<int>, k: nat, best: int, bestVariation: int)
    requires k <= |vals| && LeastFirst(vals, k, best)
    requires bestVariation == if best == -1 then 0 else vals[best]
    ensures LeastFirst(vals, |vals|, ScanFrom(vals, k, best, bestVariation))
    decreases |vals| - k
  {
    if k < |vals| {
      if vals[k] < bestVariation {
        ScanFromIsLeast(vals, k + 1, k, vals[k]);
      } else {
        ScanFromIsLeast(vals, k + 1, best, bestVariation);
      }
    }
  }

  lemma BestOfLeast(ins: Instance, s: Solution, cands: seq<(int, int)>, n: int, best: int)
    requires Placed(ins, s) && SwapPairs(ins, cands) && 0 <= n <= |cands|
    ensures BestOf(ins, s, cands, n, best) <==> LeastFirst(Variations(ins, s, cands), n, best)
  {
  }

  /** The loops of one SEBI round from candidate k on: the variation of each
      pair in turn, carrying the best pair so far (by index). */
  function BestFrom(ins: Instance, s: Solution, cands: seq<(int, int)>, k: nat, best: int, bestVariation: int): (r: int)
    requires Placed(ins, s) && SwapPairs(ins, cands) && k <= |cands| && -1 <= best < |cands|
    ensures r == best || k <= r < |cands|
  {
    ScanFrom(Variations(ins, s, cands), k, best, bestVariation)
  }

  /** Scanning the rest of the candidates extends the answer for the first
      k candidates to the answer for all of them. */
  lemma BestFromIsBest(ins: Instance, s: Solution, cands: seq<(int, int)>, k: nat, best: int, bestVariation: int)
    requires Placed(ins, s) && SwapPairs(ins, cands) && k <= |cands|
    requires BestOf(ins, s, cands, k, best)
    requires bestVariation == if best == -1 then 0 else Variation(ins, s, cands[best])
    ensures BestOf(ins, s, cands, |cands|, BestFrom(ins, s, cands, k, best, bestVariation))
  {
    var vals := Variations(ins, s, cands);
    BestOfLeast(ins, s, cands, k, best);
    ScanFromIsLeast(vals, k, best, bestVariation);
    BestOfLeast(ins, s, cands, |cands|, BestFrom(ins, s, cands, k, best, bestVariation));
  }

  /** One SEBI round: the pair to swap, or -1 when no variation is negative. */
  function BestSwap(ins: Instance, s: Solution, cands: seq<(int, int)>): (r: int)
    requires Placed(ins, s) && SwapPairs(ins, cands)
    ensures BestOf(ins, s, cands, |cands|, r)
  {
    BestFromIsBest(ins, s, cands, 0, -1, 0);
    BestFrom(ins, s, cands, 0, -1, 0)
  }

  /** The candidates SEBI and NOFACTSEBI scan: every layer in order. */
  function SebiCandidates(ins: Instance): (r: seq<(int, int)>)
    requires WellFormed(ins)
    ensures SwapPairs(ins, r)
    ensures forall u, v ::
      (&& 0 <= u < ins.totalNumVertices && 0 <= v < ins.totalNumVertices && u != v
       && ins.layerOf[u] == ins.layerOf[v] && Movable(ins, u) && Movable(ins, v)) ==> (u, v) in r || (v, u) in r
  {
    assert LayersWellFormed(ins);
    SwapCandidates(ins, AllLayers(ins.numberOfLayers))
  }

  /** A committed exchange with a negative variation lowers the score, so
      the solution it was made on was no swap optimum. */
  lemma GainNotOptimal(ins: Instance, s: Solution, q: (int, int))
    requires Consistent(ins, s) && 0 <= q.0 < ins.totalNumVertices && 0 <= q.1 < ins.totalNumVertices
    requires ins.layerOf[q.0] == ins.layerOf[q.1] && Movable(ins, q.0) && Movable(ins, q.1)
    requires Variation(ins, s, q) < 0
    ensures Consistent(ins, Swap(ins, s, q.0, q.1)) && Swap(ins, s, q.0, q.1).objective < s.objective
    ensures FastSwap(ins, s, q.0, q.1) == Swap(ins, s, q.0, q.1)
    ensures !SwapOptimal(ins, s)
  {
    SwapGain(ins, s, q);
  }

  /** LocalSearchSwSEBI: rounds of best improvement until no exchange of two
      movable vertices of a layer lowers the crossing number. The result is
      the input exactly when the input already is such an optimum. */
  function Sebi(ins: Instance, s: Solution): (r: Solution)
    requires Consistent(ins, s)
    ensures Consistent(ins, r) && SwapOptimal(ins, r)
    ensures r.objective <= s.objective
    ensures r == s <==> SwapOptimal(ins, s)
    decreases s.objective
  {
    CrossingsNonneg(ins, s);
    var cands := SebiCandidates(ins);
    var k := BestSwap(ins, s, cands);
    if k == -1 then
      NoGainOptimal(ins, s, cands);
      s
    else
      assert cands[k] in cands;
      GainNotOptimal(ins, s, cands[k]);
      Sebi(ins, Swap(ins, s, cands[k].0, cands[k].1))
  }

  // ---------------------------------------------------------------------
  // SEFI: the first exchange from a random layer, committed with fastSwap

  /** The loops of one SEFI round from candidate k on: the first pair with
      a negative variation, or -1. */
  function FirstGain(ins: Instance, s: Solution, cands: seq<(int, int)>, k: nat): (r: int)
    requires Placed(ins, s) && SwapPairs(ins, cands) && k <= |cands|
    ensures r == -1 || k <= r < |cands|
    ensures r == -1 <==> forall j :: k <= j < |cands| ==> Variation(ins, s, cands[j]) >= 0
    ensures r != -1 ==> Variation(ins, s, cands[r]) < 0 && forall j :: k <= j < r ==> Variation(ins, s, cands[j]) >= 0
    decreases |cands| - k
  {
    if k == |cands| then -1
    else
      assert cands[k] in cands;
      if Variation(ins, s, cands[k]) < 0 then k else FirstGain(ins, s, cands, k + 1)
  }

  /** LocalSearchSwSEFI: each round draws the first layer to scan, commits
      the first exchange with a negative variation, and the search stops in
      a swap optimum. The result is the input exactly when the input already
      is one. */
  function Sefi(ins: Instance, s: Solution, rnd: seq<nat>): (r: (Solution, seq<nat>))
    requires Consistent(ins, s)
    ensures Consistent(ins, r.0) && SwapOptimal(ins, r.0)
    ensures r.0.objective <= s.objective
    ensures r.0 == s <==> SwapOptimal(ins, s)
    decreases s.objective
  {
    CrossingsNonneg(ins, s);
    assert LayersWellFormed(ins);
    var nl := ins.numberOfLayers;
    var draw := NextInt(rnd, nl);
    var cands := SwapCandidates(ins, Rotation(nl, draw.0));
    var k := FirstGain(ins, s, cands, 0);
    if k == -1 then
      NoGainOptimal(ins, s, cands);
      (s, draw.1)
    else
      assert cands[k] in cands;
      GainNotOptimal(ins, s, cands[k]);
      Sefi(ins, FastSwap(ins, s, cands[k].0, cands[k].1), draw.1)
  }

  // ---------------------------------------------------------------------
  // NOFACTSEBI: every exchange tried on a copy with swap

  /** The loops of one NOFACTSEBI round from candidate k on: each candidate
      is the round's incumbent s with one swap, and replaces the running
      best temp only when strictly better than it. */
  function NoFactFrom(ins: Instance, s: Solution, cands: seq<(int, int)>, k: nat, temp: Solution, improved: bool): (r: (Solution, bool))
    requires Placed(ins, s) && SwapPairs(ins, cands) && k <= |cands| && Shaped(ins, temp)
    ensures Shaped(ins, r.0)
    decreases |cands| - k
  {
    if k == |cands| then (temp, improved)
    else
      var q := cands[k];
      assert q in cands;
      var cand := Swap(ins, s, q.0, q.1);
      if IsBetterThan(ins, cand, temp) then NoFactFrom(ins, s, cands, k + 1, cand, true)
      else NoFactFrom(ins, s, cands, k + 1, temp, improved)
  }

  /** What the running best and the flag stand for: the swap at the best
      index so far, or the incumbent itself. */
  function Picked(ins: Instance, s: Solution, cands: seq<(int, int)>, best: int): (r: (Solution, bool))
    requires Placed(ins, s) && SwapPairs(ins, cands) && -1 <= best < |cands|
    ensures Shaped(ins, r.0)
  {
    if best == -1 then (s, false)
    else
      assert cands[best] in cands;
      (Swap(ins, s, cands[best].0, cands[best].1), true)
  }

  /** A swapped copy beats the running best exactly when its variation is
      below the best variation. */
  lemma NoFactDecision(ins: Instance, s: Solution, cands: seq<(int, int)>, k: nat, best: int, bestVariation: int)
    requires Consistent(ins, s) && SwapPairs(ins, cands) && k < |cands|
    requires -1 <= best < |cands|
    requires bestVariation == if best == -1 then 0 else Variation(ins, s, cands[best])
    ensures cands[k] in cands
    ensures IsBetterThan(ins, Swap(ins, s, cands[k].0, cands[k].1), Picked(ins, s, cands, best).0)
        <==> Variation(ins, s, cands[k]) < bestVariation
  {
    var q := cands[k];
    assert q in cands;
    var cand := Swap(ins, s, q.0, q.1);
    SwapGain(ins, s, q);
    ScoreOfConsistent(ins, cand);
    if best == -1 {
      ScoreOfConsistent(ins, s);
    } else {
      assert cands[best] in cands;
      SwapGain(ins, s, cands[best]);
      ScoreOfConsistent(ins, Picked(ins, s, cands, best).0);
    }
  }

  /** Comparing full recounts against the running best takes the same
      decisions as comparing variations against the best variation. */
  lemma {:induction false} NoFactFromIsBest(ins: Instance, s: Solution, cands: seq<(int, int)>, k: nat, best: int, bestVariation: int)
    requires Consistent(ins, s) && SwapPairs(ins, cands) && k <= |cands| && -1 <= best < |cands|
    requires bestVariation == if best == -1 then 0 else Variation(ins, s, cands[best])
    ensures var p := Picked(ins, s, cands, best);
      NoFactFrom(ins, s, cands, k, p.0, p.1) == Picked(ins, s, cands, BestFrom(ins, s, cands, k, best, bestVariation))
    decreases |cands| - k
  {
    if k < |cands| {
      NoFactDecision(ins, s, cands, k, best, bestVariation);
      var p := Picked(ins, s, cands, best);
      var q := cands[k];
      var v := Variation(ins, s, q);
      if v < bestVariation {
        var cand := Swap(ins, s, q.0, q.1);
        assert NoFactFrom(ins, s, cands, k, p.0, p.1) == NoFactFrom(ins, s, cands, k + 1, cand, true);
        assert BestFrom(ins, s, cands, k, best, bestVariation) == BestFrom(ins, s, cands, k + 1, k, v);
        assert Picked(ins, s, cands, k) == (cand, true);
        NoFactFromIsBest(ins, s, cands, k + 1, k, v);
      } else {
        assert NoFactFrom(ins, s, cands, k, p.0, p.1) == NoFactFrom(ins, s, cands, k + 1, p.0, p.1);
        assert BestFrom(ins, s, cands, k, best, bestVariation) == BestFrom(ins, s, cands, k + 1, best, bestVariation);
        NoFactFromIsBest(ins, s, cands, k + 1, best, bestVariation);
      }
    }
  }

  /** One NOFACTSEBI round ends with the swap SEBI's round picks, or with
      the incumbent when no swap is better. */
  lemma NoFactRoundIsBest(ins: Instance, s: Solution, cands: seq<(int, int)>)
    requires Consistent(ins, s) && SwapPairs(ins, cands)
    ensures NoFactFrom(ins, s, cands, 0, s, false) == Picked(ins, s, cands, BestSwap(ins, s, cands))
  {
    NoFactFromIsBest(ins, s, cands, 0, -1, 0);
  }

  /** LocalSearchSwNOFACTSEBI: the search from a copy of the input, one round
      per improvement. It visits exactly the solutions SEBI visits and ends
      where SEBI ends. */
  function NoFactSebi(ins: Instance, s: Solution): (r: Solution)
    requires Consistent(ins, s)
    ensures r == Sebi(ins, s)
    decreases s.objective
  {
    CrossingsNonneg(ins, s);
    var cands := SebiCandidates(ins);
    var round := NoFactFrom(ins, s, cands, 0, s, false);
    NoFactRoundIsBest(ins, s, cands);
    var k := BestSwap(ins, s, cands);
    if !round.1 then s
    else
      assert cands[k] in cands;
      GainNotOptimal(ins, s, cands[k]);
      NoFactSebi(ins, round.0)
  }
}
