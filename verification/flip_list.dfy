/** The pairs of layer-L0 vertices whose order flips when fastSwap exchanges
    two vertices v1 and v2 of the layer: v1 and v2 themselves, and each of
    them against every vertex strictly between their positions. */
module FlipLists {
  import opened GraphModel
  import opened Crossing
  import opened SwapDelta

  /** The swapped pair, then, for each column strictly between the two
      swapped vertices, its occupant against v1 and against v2: the order in
      which fastSwap corrects them. */
  function FlipList(v1: int, v2: int, W: seq<int>): (Q: seq<(int, int)>)
    ensures |Q| == 2 * |W| + 1 && Q[0] == (v1, v2)
    ensures forall j :: 0 <= j < |W| ==> Q[2 * j + 1] == (v1, W[j]) && Q[2 * j + 2] == (v2, W[j])
  {
    if |W| == 0 then [(v1, v2)]
    else FlipList(v1, v2, W[..|W| - 1]) + [(v1, W[|W| - 1]), (v2, W[|W| - 1])]
  }

  /** Every index past the first is 2j + 1 or 2j + 2 for j = (k - 1) / 2. */
  lemma FlipIndex(k: int)
    requires k >= 1
    ensures 0 <= (k - 1) / 2 && (k == 2 * ((k - 1) / 2) + 1 || k == 2 * ((k - 1) / 2) + 2)
  {
  }

  /** Two ordered pairs are equal only for the same two vertices. */
  lemma MmEq(a: int, b: int, c: int, d: int)
    ensures Mm(a, b) == Mm(c, d) ==> (a == c && b == d) || (a == d && b == c)
  {
  }

  /** p2 is p with the positions of v1 and v2 exchanged, lo < hi are those
      two positions, and W lists the layer-L0 vertices at the columns
      strictly between them, in order. */
  ghost predicate SwapShape(lay: seq<int>, n: int, p: seq<int>, p2: seq<int>, L0: int,
                            v1: int, v2: int, lo: int, hi: int, W: seq<int>)
  {
    && |lay| == n && |p| == n && |p2| == n
    && 0 <= v1 < n && 0 <= v2 < n && v1 != v2 && lay[v1] == L0 && lay[v2] == L0
    && lo < hi && ((p[v1] == lo && p[v2] == hi) || (p[v1] == hi && p[v2] == lo))
    && p2[v1] == p[v2] && p2[v2] == p[v1]
    && (forall u :: 0 <= u < n && u != v1 && u != v2 ==> p2[u] == p[u])
    && LayerInjective(p, lay, n)
    && |W| == hi - lo - 1
    && (forall j :: 0 <= j < |W| ==> 0 <= W[j] < n && lay[W[j]] == L0 && p[W[j]] == lo + 1 + j)
  }

  /** Exchanging two positions keeps distinct vertices of a layer apart. */
  lemma SwapInjective(lay: seq<int>, n: int, p: seq<int>, p2: seq<int>, L0: int,
                      v1: int, v2: int, lo: int, hi: int, W: seq<int>)
    requires SwapShape(lay, n, p, p2, L0, v1, v2, lo, hi, W)
    ensures LayerInjective(p2, lay, n)
  {
    forall u, w | 0 <= u < n && 0 <= w < n && u != w && lay[u] == lay[w] ensures p2[u] != p2[w] {
      var u' := if u == v1 then v2 else if u == v2 then v1 else u;
      var w' := if w == v1 then v2 else if w == v2 then v1 else w;
      assert p2[u] == p[u'] && p2[w] == p[w'] && u' != w' && lay[u'] == lay[w'];
    }
  }

  /** The vertex between the two swapped ones at column lo + 1 + j flips
      against both of them. */
  lemma BetweenFlips(lay: seq<int>, n: int, p: seq<int>, p2: seq<int>, L0: int,
                     v1: int, v2: int, lo: int, hi: int, W: seq<int>, j: int)
    requires SwapShape(lay, n, p, p2, L0, v1, v2, lo, hi, W) && 0 <= j < |W|
    ensures W[j] != v1 && W[j] != v2
    ensures QOk(lay, n, p, p2, L0, (v1, W[j])) && QOk(lay, n, p, p2, L0, (v2, W[j]))
  {
    var w := W[j];
    assert p[w] == lo + 1 + j && p2[w] == p[w];
  }

  /** Every listed pair is a flipped pair of layer L0. */
  lemma FlipListOk(lay: seq<int>, n: int, p: seq<int>, p2: seq<int>, L0: int,
                   v1: int, v2: int, lo: int, hi: int, W: seq<int>)
    requires SwapShape(lay, n, p, p2, L0, v1, v2, lo, hi, W)
    ensures forall k :: 0 <= k < |FlipList(v1, v2, W)| ==> QOk(lay, n, p, p2, L0, FlipList(v1, v2, W)[k])
  {
    var Q := FlipList(v1, v2, W);
    forall k | 0 <= k < |Q| ensures QOk(lay, n, p, p2, L0, Q[k]) {
      if k >= 1 {
        FlipIndex(k);
        BetweenFlips(lay, n, p, p2, L0, v1, v2, lo, hi, W, (k - 1) / 2);
      }
    }
  }

  /** A flipped pair of layer L0 that involves a swapped vertex u and
      another vertex w is listed. */
  lemma FlipWitnessOne(lay: seq<int>, n: int, p: seq<int>, p2: seq<int>, L0: int,
                       v1: int, v2: int, lo: int, hi: int, W: seq<int>, u: int, w: int)
    requires SwapShape(lay, n, p, p2, L0, v1, v2, lo, hi, W)
    requires (u == v1 || u == v2) && 0 <= w < n && w != v1 && w != v2 && lay[w] == L0
    requires (p[u] < p[w]) != (p2[u] < p2[w])
    ensures Listed(FlipList(v1, v2, W), u, w)
  {
    var Q := FlipList(v1, v2, W);
    assert p2[w] == p[w] && p[w] != p[v1] && p[w] != p[v2];
    var j := p[w] - lo - 1;
    assert 0 <= j < |W|;
    assert W[j] == w by {
      assert p[W[j]] == p[w] && lay[W[j]] == L0;
    }
    var k := if u == v1 then 2 * j + 1 else 2 * j + 2;
    assert 0 <= k < |Q| && Q[k] == (u, w);
    assert QPair(Q, k) == Mm(u, w);
  }

  /** A flipped pair of layer L0 is listed. */
  lemma FlipWitness(lay: seq<int>, n: int, p: seq<int>, p2: seq<int>, L0: int,
                    v1: int, v2: int, lo: int, hi: int, W: seq<int>, u: int, w: int)
    requires SwapShape(lay, n, p, p2, L0, v1, v2, lo, hi, W)
    requires 0 <= u < n && 0 <= w < n && u != w && lay[u] == L0 && lay[w] == L0 && Flipped(p, p2, u, w)
    ensures Listed(FlipList(v1, v2, W), u, w)
  {
    var Q := FlipList(v1, v2, W);
    assert (p[u] < p[w]) != (p2[u] < p2[w]);
    if (u == v1 || u == v2) && (w == v1 || w == v2) {
      assert QPair(Q, 0) == Mm(u, w);
    } else if u == v1 || u == v2 {
      FlipWitnessOne(lay, n, p, p2, L0, v1, v2, lo, hi, W, u, w);
    } else {
      assert p2[u] == p[u];
      assert w == v1 || w == v2;
      assert p[u] != p[w] && p2[u] != p2[w] by {
        SwapInjective(lay, n, p, p2, L0, v1, v2, lo, hi, W);
      }
      FlipWitnessOne(lay, n, p, p2, L0, v1, v2, lo, hi, W, w, u);
      assert Mm(w, u) == Mm(u, w);
    }
  }

  /** Every flipped pair of layer L0 is listed. */
  lemma FlipListComplete(lay: seq<int>, n: int, p: seq<int>, p2: seq<int>, L0: int,
                         v1: int, v2: int, lo: int, hi: int, W: seq<int>)
    requires SwapShape(lay, n, p, p2, L0, v1, v2, lo, hi, W)
    ensures forall u, w :: 0 <= u < n && 0 <= w < n && u != w && lay[u] == L0 && lay[w] == L0 && Flipped(p, p2, u, w) ==>
              Listed(FlipList(v1, v2, W), u, w)
  {
    forall u, w | 0 <= u < n && 0 <= w < n && u != w && lay[u] == L0 && lay[w] == L0 && Flipped(p, p2, u, w)
      ensures Listed(FlipList(v1, v2, W), u, w)
    {
      FlipWitness(lay, n, p, p2, L0, v1, v2, lo, hi, W, u, w);
    }
  }

  /** No pair is listed twice. */
  lemma FlipListDistinct(lay: seq<int>, n: int, p: seq<int>, p2: seq<int>, L0: int,
                         v1: int, v2: int, lo: int, hi: int, W: seq<int>)
    requires SwapShape(lay, n, p, p2, L0, v1, v2, lo, hi, W)
    ensures forall k, m :: 0 <= k < m < |FlipList(v1, v2, W)| ==> QPair(FlipList(v1, v2, W), k) != QPair(FlipList(v1, v2, W), m)
  {
    var Q := FlipList(v1, v2, W);
    forall k, m | 0 <= k < m < |Q| ensures QPair(Q, k) != QPair(Q, m) {
      FlipIndex(m);
      var jm := (m - 1) / 2;
      BetweenFlips(lay, n, p, p2, L0, v1, v2, lo, hi, W, jm);
      MmEq(Q[k].0, Q[k].1, Q[m].0, Q[m].1);
      if k >= 1 {
        FlipIndex(k);
        var jk := (k - 1) / 2;
        BetweenFlips(lay, n, p, p2, L0, v1, v2, lo, hi, W, jk);
        assert jk != jm ==> W[jk] != W[jm] by {
          assert p[W[jk]] == lo + 1 + jk && p[W[jm]] == lo + 1 + jm;
        }
      }
    }
  }

  /** The list is exactly the flipped pairs of layer L0, each once. */
  lemma FlipListSetup(E: seq<Edge>, lay: seq<int>, nl: int, n: int, p: seq<int>, p2: seq<int>, L0: int,
                      v1: int, v2: int, lo: int, hi: int, W: seq<int>)
    requires Layered(E, lay, nl, n) && 0 <= L0 < nl
    requires SwapShape(lay, n, p, p2, L0, v1, v2, lo, hi, W)
    ensures FlipSetup(E, lay, nl, n, p, p2, L0, FlipList(v1, v2, W))
  {
    SwapInjective(lay, n, p, p2, L0, v1, v2, lo, hi, W);
    FlipListOk(lay, n, p, p2, L0, v1, v2, lo, hi, W);
    FlipListComplete(lay, n, p, p2, L0, v1, v2, lo, hi, W);
    FlipListDistinct(lay, n, p, p2, L0, v1, v2, lo, hi, W);
  }
}
