/** The column rules of the constructors: which columns of a layer may take
    a vertex or a whole long edge. The grid of occupied cells
    (boolean[][] used) is a sequence of rows, one per layer. Every rule
    returns a list of candidate columns; the constructor then picks one of
    them at random. */
module PlacementRules {

  // ---------------------------------------------------------------------
  // The occupancy grid

  /** Rows layer, ..., layer + size - 1 exist and have w cells each. */
  predicate Rows(used: seq<seq<bool>>, layer: int, size: int, w: int)
  {
    && 0 <= layer && 0 <= size && layer + size <= |used|
    && forall l :: layer <= l < layer + size ==> |used[l]| == w
  }

  /** isValidPosition(used, layer, pos, size): column pos is free in the
      layers layer, ..., layer + size - 1 that a long edge of size - 1
      chain edges occupies. */
  function IsValidPosition(used: seq<seq<bool>>, layer: int, pos: int, size: int): (b: bool)
    requires 0 <= layer && 0 <= size && layer + size <= |used| && 0 <= pos
    requires forall l :: layer <= l < layer + size ==> pos < |used[l]|
    ensures b <==> forall l :: layer <= l < layer + size ==> !used[l][pos]
    decreases size
  {
    if size == 0 then true
    else if used[layer][pos] then false
    else IsValidPosition(used, layer + 1, pos, size - 1)
  }

  /** The members of S among lo, ..., hi - 1, in ascending order: the scan of
      those columns that keeps the ones in S. */
  function Ascending(S: set<int>, lo: int, hi: int): (r: seq<int>)
    ensures forall c :: c in r <==> lo <= c < hi && c in S
    ensures forall i, j :: 0 <= i < j < |r| ==> r[i] < r[j]
    decreases hi - lo
  {
    if lo >= hi then []
    else
      var rest := Ascending(S, lo + 1, hi);
      assert forall i :: 0 <= i < |rest| ==> lo < rest[i] by {
        forall i | 0 <= i < |rest| ensures lo < rest[i] {
          assert rest[i] in rest;
        }
      }
      (if lo in S then [lo] else []) + rest
  }

  /** The columns where a long edge spanning `size` layers from `layer` fits. */
  function ValidColumns(used: seq<seq<bool>>, layer: int, size: int, w: int): (r: set<int>)
    requires Rows(used, layer, size, w)
    ensures forall c :: c in r <==> 0 <= c < w && forall l :: layer <= l < layer + size ==> !used[l][c]
  {
    set c | 0 <= c < w && IsValidPosition(used, layer, c, size)
  }

  /** The free cells of one row. */
  function FreeColumns(used: seq<seq<bool>>, layer: int, w: int): (r: set<int>)
    requires 0 <= layer < |used| && |used[layer]| == w
    ensures forall c :: c in r <==> 0 <= c < w && !used[layer][c]
  {
    set c | 0 <= c < w && !used[layer][c]
  }

  // ---------------------------------------------------------------------
  // RANDOM and RANDOM_WITH_TABU for long edges, RANDOM for vertices

  /** getLongEdgePositionRANDOM (and GDRandomConstructive's
      getAvailablePositions): in ascending order, exactly the columns free
      in every layer the long edge spans. */
  function RandomRule(used: seq<seq<bool>>, layer: int, size: int, w: int): (r: seq<int>)
    requires Rows(used, layer, size, w)
    ensures forall c :: c in r <==> 0 <= c < w && forall l :: layer <= l < layer + size ==> !used[l][c]
    ensures forall i, j :: 0 <= i < j < |r| ==> r[i] < r[j]
  {
    Ascending(ValidColumns(used, layer, size, w), 0, w)
  }

  /** getLongEdgePositionRANDOM_WITH_TABU: the RANDOM columns that are not tabu. */
  function RandomTabuRule(used: seq<seq<bool>>, layer: int, size: int, w: int, tabu: set<int>): (r: seq<int>)
    requires Rows(used, layer, size, w)
    ensures forall c :: c in r <==> c !in tabu && 0 <= c < w && forall l :: layer <= l < layer + size ==> !used[l][c]
    ensures forall i, j :: 0 <= i < j < |r| ==> r[i] < r[j]
  {
    Ascending(ValidColumns(used, layer, size, w) - tabu, 0, w)
  }

  /** getPositionsRandom: the free cells of v's layer, ascending. */
  function RandomVertexRule(used: seq<seq<bool>>, layer: int, w: int): (r: seq<int>)
    requires 0 <= layer < |used| && |used[layer]| == w
    ensures forall c :: c in r <==> 0 <= c < w && !used[layer][c]
    ensures forall i, j :: 0 <= i < j < |r| ==> r[i] < r[j]
  {
    Ascending(FreeColumns(used, layer, w), 0, w)
  }

  /** Columns of width 1 are the free cells of one row: RANDOM placement of
      a vertex is RANDOM placement of a long edge spanning one layer. */
  lemma RandomVertexIsRandomRule(used: seq<seq<bool>>, layer: int, w: int)
    requires 0 <= layer < |used| && |used[layer]| == w
    ensures RandomVertexRule(used, layer, w) == RandomRule(used, layer, 1, w)
  {
    assert FreeColumns(used, layer, w) == ValidColumns(used, layer, 1, w);
  }

  // ---------------------------------------------------------------------
  // Sorting (Collections.sort, List.sort): a stable insertion sort by a key

  predicate SortedBy<T>(xs: seq<T>, key: T -> real)
  {
    forall i, j :: 0 <= i < j < |xs| ==> key(xs[i]) <= key(xs[j])
  }

  /** x goes after every element whose key is not larger than its own. */
  function Insert<T>(x: T, xs: seq<T>, key: T -> real): (r: seq<T>)
    requires SortedBy(xs, key)
    ensures SortedBy(r, key)
    ensures multiset(r) == multiset(xs) + multiset{x}
    ensures forall i :: 0 <= i < |r| ==> r[i] == x || r[i] in xs
    decreases |xs|
  {
    if |xs| == 0 then [x]
    else if key(xs[|xs| - 1]) <= key(x) then xs + [x]
    else
      var r0 := Insert(x, xs[..|xs| - 1], key);
      InsertBeforeLast(x, xs, key, r0);
      r0 + [Last(xs)]
  }

  function Last<T>(xs: seq<T>): T
    requires |xs| > 0
  {
    xs[|xs| - 1]
  }

  /** When x goes before the last element, the insertion into the rest
      followed by that element is sorted and holds the same elements. */
  lemma InsertBeforeLast<T>(x: T, xs: seq<T>, key: T -> real, r0: seq<T>)
    requires |xs| > 0 && SortedBy(xs, key) && key(x) < key(xs[|xs| - 1])
    requires SortedBy(r0, key) && multiset(r0) == multiset(xs[..|xs| - 1]) + multiset{x}
    requires forall i :: 0 <= i < |r0| ==> r0[i] == x || r0[i] in xs[..|xs| - 1]
    ensures SortedBy(r0 + [Last(xs)], key)
    ensures multiset(r0 + [Last(xs)]) == multiset(xs) + multiset{x}
    ensures forall i :: 0 <= i < |r0 + [Last(xs)]| ==> (r0 + [Last(xs)])[i] == x || (r0 + [Last(xs)])[i] in xs
  {
    var init := xs[..|xs| - 1];
    var y := xs[|xs| - 1];
    assert xs == init + [y];
    forall i | 0 <= i < |r0| ensures key(r0[i]) <= key(y) {
      if r0[i] != x {
        var k :| 0 <= k < |init| && init[k] == r0[i];
        assert xs[k] == r0[i];
      }
    }
    SortedSnoc(r0, y, key);
  }

  /** An element whose key bounds every key of a sorted list can follow it. */
  lemma SortedSnoc<T>(xs: seq<T>, y: T, key: T -> real)
    requires SortedBy(xs, key) && forall i :: 0 <= i < |xs| ==> key(xs[i]) <= key(y)
    ensures SortedBy(xs + [y], key)
  {
    var r := xs + [y];
    forall i, j | 0 <= i < j < |r| ensures key(r[i]) <= key(r[j]) {
      assert r[i] == xs[i];
      if j < |xs| {
        assert r[j] == xs[j];
      }
    }
  }

  /** A stable sort: the result is ordered by key and is a permutation of xs. */
  function SortBy<T>(xs: seq<T>, key: T -> real): (r: seq<T>)
    ensures SortedBy(r, key)
    ensures multiset(r) == multiset(xs)
    ensures |r| == |xs|
    decreases |xs|
  {
    if |xs| == 0 then []
    else
      assert xs == xs[..|xs| - 1] + [xs[|xs| - 1]];
      var r := Insert(xs[|xs| - 1], SortBy(xs[..|xs| - 1], key), key);
      assert |r| == |multiset(r)|;
      r
  }

  function IntKey(x: int): real
  {
    x as real
  }

  /** Positions sorted ascending. */
  function SortInts(ps: seq<int>): (r: seq<int>)
    ensures |r| == |ps| && multiset(r) == multiset(ps)
    ensures forall i, j :: 0 <= i < j < |r| ==> r[i] <= r[j]
  {
    var r := SortBy(ps, IntKey);
    assert forall i, j :: 0 <= i < j < |r| ==> IntKey(r[i]) <= IntKey(r[j]);
    r
  }

  /** The first element of an ascending sequence is its least. */
  lemma HeadLeast(a: seq<int>, x: int)
    requires forall i, j :: 0 <= i < j < |a| ==> a[i] <= a[j]
    requires x in multiset(a)
    ensures |a| > 0 && a[0] <= x
  {
    var i :| 0 <= i < |a| && a[i] == x;
  }

  /** Dropping the head keeps the rest, in order. */
  lemma TailOf(a: seq<int>)
    requires |a| > 0
    requires forall i, j :: 0 <= i < j < |a| ==> a[i] <= a[j]
    ensures multiset(a[1..]) == multiset(a) - multiset{a[0]}
    ensures forall i, j :: 0 <= i < j < |a[1..]| ==> a[1..][i] <= a[1..][j]
  {
    assert a == [a[0]] + a[1..];
    forall i, j | 0 <= i < j < |a[1..]| ensures a[1..][i] <= a[1..][j] {
      assert a[1..][i] == a[i + 1] && a[1..][j] == a[j + 1];
    }
  }

  lemma ConsEqual(a: seq<int>, b: seq<int>)
    requires |a| > 0 && |b| > 0 && a[0] == b[0] && a[1..] == b[1..]
    ensures a == b
  {
    assert a == [a[0]] + a[1..];
    assert b == [b[0]] + b[1..];
  }

  /** Two ascending sequences with the same elements are equal: the sorted
      positions do not depend on the order in which they were collected. */
  lemma {:induction false} SortedUnique(a: seq<int>, b: seq<int>)
    requires forall i, j :: 0 <= i < j < |a| ==> a[i] <= a[j]
    requires forall i, j :: 0 <= i < j < |b| ==> b[i] <= b[j]
    requires multiset(a) == multiset(b)
    ensures a == b
    decreases |a|
  {
    if |a| == 0 {
      assert |b| == |multiset(b)| == 0;
    } else {
      assert a[0] in multiset(a);
      HeadLeast(b, a[0]);
      assert b[0] in multiset(b);
      HeadLeast(a, b[0]);
      TailOf(a);
      TailOf(b);
      SortedUnique(a[1..], b[1..]);
      ConsEqual(a, b);
    }
  }

  /** Collecting the same positions in another order sorts them the same way. */
  lemma SortIntsOrderFree(ps: seq<int>, qs: seq<int>)
    requires multiset(ps) == multiset(qs)
    ensures SortInts(ps) == SortInts(qs)
  {
    SortedUnique(SortInts(ps), SortInts(qs));
  }

  // ---------------------------------------------------------------------
  // The median rules

  /** Java's int division by two, which truncates toward zero. */
  function JavaHalf(x: int): (r: int)
    ensures x >= 0 ==> 0 <= r && r + r <= x < r + r + 2
    ensures x < 0 ==> r <= 0 && x < r + r + 2 && r + r <= x + 1
  {
    if x >= 0 then x / 2 else -((-x) / 2)
  }

  /** The column a median rule expands from: the middle of the sorted
      positions, or the truncated mean of the two middle ones when there is
      an even number of them. */
  function MedianColumn(sorted: seq<int>): int
    requires |sorted| > 0
  {
    var mid := |sorted| / 2;
    if |sorted| % 2 != 0 then sorted[mid] else JavaHalf(sorted[mid] + sorted[mid - 1])
  }

  /** The expansion column lies between the two middle positions and as many
      positions lie at or below it as at or above it, give or take the middle
      one; with positions that are columns of a layer it is a column too. */
  lemma MedianColumnBetween(sorted: seq<int>, w: int)
    requires |sorted| > 0
    requires forall i, j :: 0 <= i < j < |sorted| ==> sorted[i] <= sorted[j]
    requires forall i :: 0 <= i < |sorted| ==> 0 <= sorted[i] < w
    ensures var m := MedianColumn(sorted);
            && 0 <= m < w
            && sorted[(|sorted| - 1) / 2] <= m <= sorted[|sorted| / 2]
            && (forall i :: 0 <= i < |sorted| / 2 ==> sorted[i] <= m)
            && (forall i :: (|sorted| - 1) / 2 < i < |sorted| ==> m <= sorted[i])
  {
  }

  /** How far the expansion loop must go before it looks at column c: step
      k looks at m - k - 1 and m + k. */
  function Step(m: int, c: int): (k: int)
    ensures c == m + k || c == m - k - 1
  {
    if c >= m then c - m else m - c - 1
  }

  /** The expansion loop from step k on: at each step the columns m - k - 1
      and m + k that are in range and acceptable; the first step that yields
      any column ends the loop. */
  function Expansion(m: int, w: int, ok: set<int>, k: int): (r: seq<int>)
    requires 0 <= k
    ensures forall c :: c in r ==> 0 <= c < w && c in ok && k <= Step(m, c) < w
    ensures |r| <= 2 && (|r| == 2 ==> r[0] < r[1])
    decreases w - k
  {
    if k >= w then []
    else
      var a := m - k - 1;
      var b := m + k;
      var step := (if 0 <= a < w && a in ok then [a] else []) + (if 0 <= b < w && b in ok then [b] else []);
      if |step| > 0 then step else Expansion(m, w, ok, k + 1)
  }

  /** A step that yields no column passes over no acceptable column. */
  lemma StepMissed(m: int, w: int, ok: set<int>, k: int, d: int)
    requires !(0 <= m - k - 1 < w && m - k - 1 in ok) && !(0 <= m + k < w && m + k in ok)
    requires 0 <= d < w && d in ok
    ensures Step(m, d) != k
  {
  }

  /** No column the expansion loop returns is farther from m than an
      acceptable column within its remaining steps. */
  lemma {:induction false} ExpansionClosest(m: int, w: int, ok: set<int>, k: int)
    requires 0 <= k
    ensures forall c, d :: c in Expansion(m, w, ok, k) && 0 <= d < w && d in ok && k <= Step(m, d) ==> Step(m, c) <= Step(m, d)
    decreases w - k
  {
    if k < w {
      if !(0 <= m - k - 1 < w && m - k - 1 in ok) && !(0 <= m + k < w && m + k in ok) {
        ExpansionSkips(m, w, ok, k);
        ExpansionClosest(m, w, ok, k + 1);
      } else {
        ExpansionHits(m, w, ok, k);
      }
    }
  }

  /** A step that yields no column hands over to the next step, and no
      acceptable column lies at that step. */
  lemma ExpansionSkips(m: int, w: int, ok: set<int>, k: int)
    requires 0 <= k < w
    requires !(0 <= m - k - 1 < w && m - k - 1 in ok) && !(0 <= m + k < w && m + k in ok)
    ensures Expansion(m, w, ok, k) == Expansion(m, w, ok, k + 1)
    ensures forall d :: 0 <= d < w && d in ok ==> Step(m, d) != k
  {
    forall d | 0 <= d < w && d in ok ensures Step(m, d) != k {
      StepMissed(m, w, ok, k, d);
    }
  }

  /** A step that yields a column returns only columns at that step. */
  lemma ExpansionHits(m: int, w: int, ok: set<int>, k: int)
    requires 0 <= k < w
    requires (0 <= m - k - 1 < w && m - k - 1 in ok) || (0 <= m + k < w && m + k in ok)
    ensures |Expansion(m, w, ok, k)| > 0
    ensures forall c :: c in Expansion(m, w, ok, k) ==> Step(m, c) == k
    ensures forall d :: 0 <= d < w && d in ok && Step(m, d) == k ==> d in Expansion(m, w, ok, k)
  {
    var a := m - k - 1;
    var b := m + k;
    var step := (if 0 <= a < w && a in ok then [a] else []) + (if 0 <= b < w && b in ok then [b] else []);
    assert Expansion(m, w, ok, k) == step;
    assert Step(m, a) == k && Step(m, b) == k;
  }

  /** Every acceptable column as close to m as a returned one is returned. */
  lemma {:induction false} ExpansionTies(m: int, w: int, ok: set<int>, k: int)
    requires 0 <= k
    ensures forall c, d :: c in Expansion(m, w, ok, k) && 0 <= d < w && d in ok && Step(m, d) == Step(m, c) ==> d in Expansion(m, w, ok, k)
    decreases w - k
  {
    if k < w {
      if !(0 <= m - k - 1 < w && m - k - 1 in ok) && !(0 <= m + k < w && m + k in ok) {
        ExpansionSkips(m, w, ok, k);
        ExpansionTies(m, w, ok, k + 1);
      } else {
        ExpansionHits(m, w, ok, k);
      }
    }
  }

  /** The expansion loop comes back empty exactly when no acceptable column
      lies within its remaining steps. */
  lemma {:induction false} ExpansionEmpty(m: int, w: int, ok: set<int>, k: int)
    requires 0 <= k
    ensures |Expansion(m, w, ok, k)| == 0 <==> forall d :: 0 <= d < w && d in ok ==> !(k <= Step(m, d) < w)
    decreases w - k
  {
    if k < w {
      if !(0 <= m - k - 1 < w && m - k - 1 in ok) && !(0 <= m + k < w && m + k in ok) {
        ExpansionSkips(m, w, ok, k);
        ExpansionEmpty(m, w, ok, k + 1);
      } else {
        ExpansionHits(m, w, ok, k);
        var d := if 0 <= m - k - 1 < w && m - k - 1 in ok then m - k - 1 else m + k;
        assert 0 <= d < w && d in ok && Step(m, d) == k;
      }
    }
  }

  /** The expansion loop returns the acceptable columns of the first step
      that has any: all of them, and none farther out than another
      acceptable column; it comes back empty exactly when no acceptable
      column lies within its remaining steps. */
  lemma ExpansionNearest(m: int, w: int, ok: set<int>, k: int)
    requires 0 <= k
    ensures var r := Expansion(m, w, ok, k);
      && (forall c, d :: c in r && 0 <= d < w && d in ok && k <= Step(m, d) ==> Step(m, c) <= Step(m, d))
      && (forall c, d :: c in r && 0 <= d < w && d in ok && Step(m, d) == Step(m, c) ==> d in r)
      && (|r| == 0 <==> forall d :: 0 <= d < w && d in ok ==> !(k <= Step(m, d) < w))
  {
    ExpansionClosest(m, w, ok, k);
    ExpansionTies(m, w, ok, k);
    ExpansionEmpty(m, w, ok, k);
  }

  /** Step distances reach every column of the layer when m is a column. */
  lemma StepInRange(m: int, w: int, d: int)
    requires 0 <= m < w && 0 <= d < w
    ensures 0 <= Step(m, d) < w
  {
  }

  /** getLongEdgePositionMEDIAN, getPositionsMedian and their variants:
      with no placed neighbour the fallback list; with an odd number of
      positions whose median column passes the shortcut test, that column
      alone; otherwise the acceptable columns nearest to the median column.
      ps holds the columns of the placed neighbours. */
  function MedianRule(ps: seq<int>, w: int, okShort: set<int>, okExpand: set<int>, fallback: seq<int>): (r: seq<int>)
    requires forall i :: 0 <= i < |ps| ==> 0 <= ps[i] < w
    ensures |ps| == 0 ==> r == fallback
    ensures |ps| > 0 ==>
      var sorted := SortInts(ps);
      var mid := sorted[|ps| / 2];
      if |ps| % 2 == 1 && mid in okShort then r == [mid]
      else
        var m := MedianColumn(sorted);
        && (forall c :: c in r ==> 0 <= c < w && c in okExpand)
        && (forall c, d :: c in r && 0 <= d < w && d in okExpand ==> Step(m, c) <= Step(m, d))
        && (forall c, d :: c in r && 0 <= d < w && d in okExpand && Step(m, d) == Step(m, c) ==> d in r)
        && (|r| == 0 <==> forall d :: 0 <= d < w ==> d !in okExpand)
  {
    if |ps| == 0 then fallback
    else
      var sorted := SortInts(ps);
      assert forall i :: 0 <= i < |sorted| ==> 0 <= sorted[i] < w by {
        forall i | 0 <= i < |sorted| ensures 0 <= sorted[i] < w {
          assert sorted[i] in multiset(ps);
        }
      }
      var mid := sorted[|ps| / 2];
      if |ps| % 2 == 1 && mid in okShort then [mid]
      else ExpandFromMedian(sorted, w, okExpand)
  }

  /** The acceptable columns nearest to the median column of the sorted
      positions, all of them when several are equally near. */
  function ExpandFromMedian(sorted: seq<int>, w: int, okExpand: set<int>): (r: seq<int>)
    requires |sorted| > 0 && forall i, j :: 0 <= i < j < |sorted| ==> sorted[i] <= sorted[j]
    requires forall i :: 0 <= i < |sorted| ==> 0 <= sorted[i] < w
    ensures var m := MedianColumn(sorted);
      && (forall c :: c in r ==> 0 <= c < w && c in okExpand)
      && (forall c, d :: c in r && 0 <= d < w && d in okExpand ==> Step(m, c) <= Step(m, d))
      && (forall c, d :: c in r && 0 <= d < w && d in okExpand && Step(m, d) == Step(m, c) ==> d in r)
      && (|r| == 0 <==> forall d :: 0 <= d < w ==> d !in okExpand)
  {
    var m := MedianColumn(sorted);
    MedianColumnBetween(sorted, w);
    ExpansionNearest(m, w, okExpand, 0);
    assert forall d :: 0 <= d < w ==> 0 <= Step(m, d) < w;
    Expansion(m, w, okExpand, 0)
  }

  /** The outcome of a median rule depends only on which positions the
      placed neighbours have, not on the order they were collected in. */
  lemma MedianRuleOrderFree(ps: seq<int>, qs: seq<int>, w: int, okShort: set<int>, okExpand: set<int>, fallback: seq<int>)
    requires forall i :: 0 <= i < |ps| ==> 0 <= ps[i] < w
    requires multiset(ps) == multiset(qs)
    ensures forall i :: 0 <= i < |qs| ==> 0 <= qs[i] < w
    ensures MedianRule(ps, w, okShort, okExpand, fallback) == MedianRule(qs, w, okShort, okExpand, fallback)
  {
    forall i | 0 <= i < |qs| ensures 0 <= qs[i] < w {
      assert qs[i] in multiset(ps);
    }
    assert |ps| == |multiset(ps)| == |qs|;
    SortIntsOrderFree(ps, qs);
  }

  // ---------------------------------------------------------------------
  // The median rules of the constructor

  /** getLongEdgePositionMEDIAN: valid columns nearest to the median of the
      placed neighbours; RANDOM when no neighbour is placed. */
  function MedianLongEdgeRule(used: seq<seq<bool>>, layer: int, size: int, w: int, ps: seq<int>): (r: seq<int>)
    requires Rows(used, layer, size, w)
    requires forall i :: 0 <= i < |ps| ==> 0 <= ps[i] < w
    ensures forall c :: c in r ==> 0 <= c < w && forall l :: layer <= l < layer + size ==> !used[l][c]
  {
    var V := ValidColumns(used, layer, size, w);
    MedianRule(ps, w, V, V, RandomRule(used, layer, size, w))
  }

  /** MEDIAN comes back empty, and the construction gives up, exactly when
      no column is free in every layer the long edge spans. */
  lemma MedianLongEdgeRuleEmpty(used: seq<seq<bool>>, layer: int, size: int, w: int, ps: seq<int>)
    requires Rows(used, layer, size, w)
    requires forall i :: 0 <= i < |ps| ==> 0 <= ps[i] < w
    ensures |MedianLongEdgeRule(used, layer, size, w, ps)| == 0 <==>
      forall c :: 0 <= c < w ==> !IsValidPosition(used, layer, c, size)
  {
    var r := MedianLongEdgeRule(used, layer, size, w, ps);
    var V := ValidColumns(used, layer, size, w);
    assert r == MedianRule(ps, w, V, V, RandomRule(used, layer, size, w));
    assert forall c :: 0 <= c < w ==> (c in V <==> IsValidPosition(used, layer, c, size));
    if |ps| == 0 {
      assert forall c :: 0 <= c < w ==> (c in V <==> c in r);
    } else if |ps| % 2 == 1 && SortInts(ps)[|ps| / 2] in V {
      var mid := SortInts(ps)[|ps| / 2];
      assert r == [mid];
      assert IsValidPosition(used, layer, mid, size);
    }
    if |r| > 0 {
      assert r[0] in r;
      assert 0 <= r[0] < w && IsValidPosition(used, layer, r[0], size);
    }
  }

  /** getLongEdgePositionMEDIAN_WITH_TABU: as MEDIAN, except that the
      expansion loop skips tabu columns; the odd-median shortcut and the
      RANDOM fallback do not consult the tabu set. */
  function MedianTabuLongEdgeRule(used: seq<seq<bool>>, layer: int, size: int, w: int, ps: seq<int>, tabu: set<int>): (r: seq<int>)
    requires Rows(used, layer, size, w)
    requires forall i :: 0 <= i < |ps| ==> 0 <= ps[i] < w
    ensures forall c :: c in r ==> 0 <= c < w && forall l :: layer <= l < layer + size ==> !used[l][c]
  {
    var V := ValidColumns(used, layer, size, w);
    MedianRule(ps, w, V, V - tabu, RandomRule(used, layer, size, w))
  }

  /** A tabu column comes back from MEDIAN_WITH_TABU whenever it is the
      valid median of an odd number of neighbour positions, and whenever no
      neighbour is placed and it is a valid column; only the columns of the
      expansion loop avoid the tabu set. */
  lemma MedianTabuFiltersOnlyExpansion(used: seq<seq<bool>>, layer: int, size: int, w: int, ps: seq<int>, tabu: set<int>)
    requires Rows(used, layer, size, w)
    requires forall i :: 0 <= i < |ps| ==> 0 <= ps[i] < w
    ensures |ps| == 0 ==> MedianTabuLongEdgeRule(used, layer, size, w, ps, tabu) == RandomRule(used, layer, size, w)
    ensures |ps| % 2 == 1 && SortInts(ps)[|ps| / 2] in ValidColumns(used, layer, size, w) ==>
      MedianTabuLongEdgeRule(used, layer, size, w, ps, tabu) == [SortInts(ps)[|ps| / 2]]
    ensures |ps| > 0 && !(|ps| % 2 == 1 && SortInts(ps)[|ps| / 2] in ValidColumns(used, layer, size, w)) ==>
      forall c :: c in MedianTabuLongEdgeRule(used, layer, size, w, ps, tabu) ==> c !in tabu
  {
  }

  /** getPositionsMedian: free cells of the row nearest to the median of the
      placed neighbours; RANDOM when no neighbour is placed. */
  function MedianVertexRule(used: seq<seq<bool>>, layer: int, w: int, ps: seq<int>): (r: seq<int>)
    requires 0 <= layer < |used| && |used[layer]| == w
    requires forall i :: 0 <= i < |ps| ==> 0 <= ps[i] < w
    ensures forall c :: c in r ==> 0 <= c < w && !used[layer][c]
  {
    var F := FreeColumns(used, layer, w);
    MedianRule(ps, w, F, F, RandomVertexRule(used, layer, w))
  }

  /** MEDIAN for a vertex comes back empty exactly when its layer is full. */
  lemma MedianVertexRuleEmpty(used: seq<seq<bool>>, layer: int, w: int, ps: seq<int>)
    requires 0 <= layer < |used| && |used[layer]| == w
    requires forall i :: 0 <= i < |ps| ==> 0 <= ps[i] < w
    ensures |MedianVertexRule(used, layer, w, ps)| == 0 <==> forall c :: 0 <= c < w ==> used[layer][c]
  {
    var r := MedianVertexRule(used, layer, w, ps);
    var F := FreeColumns(used, layer, w);
    assert r == MedianRule(ps, w, F, F, RandomVertexRule(used, layer, w));
    if |ps| == 0 {
      assert forall c :: 0 <= c < w ==> (c in F <==> c in r);
    } else if |ps| % 2 == 1 && SortInts(ps)[|ps| / 2] in F {
      assert r[0] in F;
    }
    if |r| > 0 {
      assert r[0] in r;
    }
  }

  /** getPositionsCrossingsMedian: the median rule restricted to the columns
      the crossing rule returned; RANDOM (all free cells) when no neighbour
      is placed. */
  function CrossingsMedianVertexRule(used: seq<seq<bool>>, layer: int, w: int, ps: seq<int>, best: seq<int>): (r: seq<int>)
    requires 0 <= layer < |used| && |used[layer]| == w
    requires forall i :: 0 <= i < |ps| ==> 0 <= ps[i] < w
    requires forall c :: c in best ==> 0 <= c < w && !used[layer][c]
    ensures forall c :: c in r ==> 0 <= c < w && !used[layer][c]
    ensures |ps| > 0 ==> forall c :: c in r ==> c in best
  {
    var C := set c | c in best;
    MedianRule(ps, w, C, C, RandomVertexRule(used, layer, w))
  }
}
