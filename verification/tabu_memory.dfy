/** The tabu memory of the GRASP constructor: for every long edge, a FIFO
    queue of the columns recently chosen for it and the set of those
    columns. A column in the set is "tabu" for that long edge; once the set
    holds more than `size` columns, the oldest queued column is released. */
module TabuMemories {
  import opened GraphModel

  datatype TabuMemory = TabuMemory(size: int, queue: map<Edge, seq<int>>, members: map<Edge, set<int>>)

  /** The memory keeps a queue and a set for the long edge e. */
  predicate Tracked(t: TabuMemory, e: Edge)
  {
    e in t.queue && e in t.members
  }

  /** The constructor creates one HashSet of initial capacity `size` per
      long edge, and a negative capacity throws IllegalArgumentException:
      the memory can be built exactly when the size is non-negative or
      there is no long edge. */
  predicate Constructible(size: int, longEdges: seq<Edge>)
  {
    size >= 0 || |longEdges| == 0
  }

  /** The constructor: an empty queue and an empty set for every long edge. */
  function NewTabuMemory(size: int, longEdges: seq<Edge>): (t: TabuMemory)
    ensures t.size == size
    ensures forall e :: e in t.queue <==> e in longEdges
    ensures forall e :: e in t.members <==> e in longEdges
    ensures forall e :: e in t.queue ==> t.queue[e] == []
    ensures forall e :: e in t.members ==> t.members[e] == {}
  {
    if |longEdges| == 0 then TabuMemory(size, map[], map[])
    else
      var t0 := NewTabuMemory(size, longEdges[..|longEdges| - 1]);
      var e := longEdges[|longEdges| - 1];
      assert forall x :: x in longEdges <==> x in longEdges[..|longEdges| - 1] || x == e;
      t0.(queue := t0.queue[e := []], members := t0.members[e := {}])
  }

  /** isInTabuList. */
  function IsInTabuList(t: TabuMemory, e: Edge, pos: int): bool
    requires e in t.members
  {
    pos in t.members[e]
  }

  /** addToTabuList: pos joins the back of e's queue and e's set. */
  function AddToTabuList(t: TabuMemory, e: Edge, pos: int): (r: TabuMemory)
    requires Tracked(t, e)
    ensures Tracked(r, e) && r.size == t.size
    ensures forall f :: Tracked(t, f) ==> Tracked(r, f)
  {
    t.(queue := t.queue[e := t.queue[e] + [pos]], members := t.members[e := t.members[e] + {pos}])
  }

  /** removeFromTabuList: once e's set is larger than `size`, the oldest
      queued column leaves the queue and the set. The queue must then be
      non-empty, or LinkedList.remove() throws. */
  function RemoveFromTabuList(t: TabuMemory, e: Edge): (r: TabuMemory)
    requires Tracked(t, e)
    requires |t.members[e]| > t.size ==> |t.queue[e]| > 0
    ensures Tracked(r, e) && r.size == t.size
    ensures forall f :: Tracked(t, f) ==> Tracked(r, f)
  {
    if |t.members[e]| > t.size then
      var q := t.queue[e];
      t.(queue := t.queue[e := q[1..]], members := t.members[e := t.members[e] - {q[0]}])
    else t
  }

  /** updateTabuList as written: record pos, then evict at most one column. */
  function UpdateTabuList(t: TabuMemory, e: Edge, pos: int): (r: TabuMemory)
    requires Tracked(t, e)
    ensures Tracked(r, e) && r.size == t.size
    ensures forall f :: Tracked(t, f) ==> Tracked(r, f)
  {
    RemoveFromTabuList(AddToTabuList(t, e, pos), e)
  }

  /** updateTabuList recording only columns that are not tabu yet: a column
      already in the set is already in the queue, and queueing it a second
      time is what lets the set outgrow `size`. */
  function UpdateTabuListOnce(t: TabuMemory, e: Edge, pos: int): (r: TabuMemory)
    requires Tracked(t, e)
    ensures Tracked(r, e) && r.size == t.size
    ensures forall f :: Tracked(t, f) ==> Tracked(r, f)
  {
    if IsInTabuList(t, e, pos) then t else UpdateTabuList(t, e, pos)
  }

  // ---------------------------------------------------------------------
  // Invariants

  predicate NoDuplicates(q: seq<int>)
  {
    forall i, j :: 0 <= i < j < |q| ==> q[i] != q[j]
  }

  /** Every column of the set is still queued. */
  predicate Covered(t: TabuMemory, e: Edge)
    requires Tracked(t, e)
  {
    forall x :: x in t.members[e] ==> x in t.queue[e]
  }

  /** Queue and set hold the same columns, each once. */
  ghost predicate Exact(t: TabuMemory, e: Edge)
    requires Tracked(t, e)
  {
    NoDuplicates(t.queue[e]) && forall x :: x in t.queue[e] <==> x in t.members[e]
  }

  /** The queues and sets of the other long edges are untouched. */
  ghost predicate OthersKept(t: TabuMemory, r: TabuMemory, e: Edge)
  {
    && (forall f :: f != e ==> (f in r.queue <==> f in t.queue))
    && (forall f :: f != e ==> (f in r.members <==> f in t.members))
    && (forall f :: f != e && f in t.queue ==> f in r.queue && r.queue[f] == t.queue[f])
    && (forall f :: f != e && f in t.members ==> f in r.members && r.members[f] == t.members[f])
  }

  /** A covered memory stays covered under updateTabuList, only e's queue
      and set change, and the new column is tabu afterwards unless it was
      the one evicted. */
  lemma UpdateCovered(t: TabuMemory, e: Edge, pos: int)
    requires Tracked(t, e) && Covered(t, e)
    ensures Covered(UpdateTabuList(t, e, pos), e)
    ensures OthersKept(t, UpdateTabuList(t, e, pos), e)
    ensures UpdateTabuList(t, e, pos).members[e] <= t.members[e] + {pos}
  {
    var t1 := AddToTabuList(t, e, pos);
    var q := t1.queue[e];
    assert q == t.queue[e] + [pos];
    var r := UpdateTabuList(t, e, pos);
    if |t1.members[e]| > t1.size {
      forall x | x in r.members[e] ensures x in r.queue[e] {
        assert x in t1.members[e] && x != q[0];
        assert x in q;
        var i :| 0 <= i < |q| && q[i] == x;
        assert q[1..][i - 1] == x;
      }
    }
  }

  /** With an exact memory holding at most `size` columns and a column that
      is not tabu yet, updateTabuList keeps the memory exact and within
      `size`: the new column is tabu, and the oldest one is released exactly
      when the set would otherwise hold size + 1 columns. */
  lemma UpdateFreshBounded(t: TabuMemory, e: Edge, pos: int)
    requires Tracked(t, e) && Exact(t, e) && 0 <= t.size && |t.members[e]| <= t.size
    requires !IsInTabuList(t, e, pos)
    ensures Exact(UpdateTabuList(t, e, pos), e)
    ensures |UpdateTabuList(t, e, pos).members[e]| <= t.size
    ensures |t.members[e]| < t.size ==> UpdateTabuList(t, e, pos).members[e] == t.members[e] + {pos}
    ensures |t.members[e]| == t.size && t.size > 0 ==>
      |t.queue[e]| > 0 && UpdateTabuList(t, e, pos).members[e] == t.members[e] + {pos} - {t.queue[e][0]}
    ensures pos in UpdateTabuList(t, e, pos).members[e] <==> t.size > 0
  {
    var t1 := AddToTabuList(t, e, pos);
    var q := t1.queue[e];
    assert q == t.queue[e] + [pos];
    assert pos !in t.queue[e];
    assert |t1.members[e]| == |t.members[e]| + 1;
    assert NoDuplicates(q) by {
      forall i, j | 0 <= i < j < |q| ensures q[i] != q[j] {
        if j == |q| - 1 {
          assert q[i] in t.queue[e];
        } else {
          assert q[i] == t.queue[e][i] && q[j] == t.queue[e][j];
        }
      }
    }
    var r := UpdateTabuList(t, e, pos);
    if |t1.members[e]| > t1.size {
      if |t.queue[e]| > 0 {
        assert q[0] == t.queue[e][0] && q[0] in t.queue[e];
      } else {
        assert q[0] == pos;
      }
      assert |r.members[e]| == |t1.members[e]| - 1;
      forall x ensures x in r.queue[e] <==> x in r.members[e] {
        if x in r.queue[e] {
          var i :| 0 <= i < |q[1..]| && q[1..][i] == x;
          assert q[i + 1] == x && x != q[0];
        }
        if x in r.members[e] {
          assert x in q && x != q[0];
          var i :| 0 <= i < |q| && q[i] == x;
          assert q[1..][i - 1] == x;
        }
      }
      if |t.members[e]| == t.size && t.size > 0 {
        var x :| x in t.members[e];
        assert x in t.queue[e];
        assert q[0] == t.queue[e][0];
      }
      if t.size == 0 {
        assert q == [pos];
      } else {
        assert q[0] == t.queue[e][0] && q[0] != pos;
      }
    }
  }

  /** The corrected update keeps every exact memory within `size`, whatever
      column it records. */
  lemma UpdateOnceBounded(t: TabuMemory, e: Edge, pos: int)
    requires Tracked(t, e) && Exact(t, e) && 0 <= t.size && |t.members[e]| <= t.size
    ensures Exact(UpdateTabuListOnce(t, e, pos), e)
    ensures |UpdateTabuListOnce(t, e, pos).members[e]| <= t.size
    ensures UpdateTabuListOnce(t, e, pos).members[e] <= t.members[e] + {pos}
    ensures t.size > 0 ==> IsInTabuList(UpdateTabuListOnce(t, e, pos), e, pos)
    ensures OthersKept(t, UpdateTabuListOnce(t, e, pos), e)
  {
    if !IsInTabuList(t, e, pos) {
      UpdateFreshBounded(t, e, pos);
      UpdateCovered(t, e, pos);
    }
  }

  /** A fresh memory is exact and empty for every long edge. */
  lemma NewTabuMemoryExact(size: int, longEdges: seq<Edge>, e: Edge)
    requires e in longEdges
    ensures Tracked(NewTabuMemory(size, longEdges), e)
    ensures Exact(NewTabuMemory(size, longEdges), e)
    ensures |NewTabuMemory(size, longEdges).members[e]| == 0
  {
  }

  /** As written, recording a column that is already tabu queues it twice;
      the stale copy is evicted later without shrinking the set, and from
      then on a memory of size 1 holds two tabu columns. */
  lemma TabuOverflow(e: Edge)
    ensures var t0 := NewTabuMemory(1, [e]);
            var t1 := UpdateTabuList(t0, e, 3);
            var t2 := UpdateTabuList(t1, e, 3);
            var t3 := UpdateTabuList(t2, e, 5);
            var t4 := UpdateTabuList(t3, e, 7);
            IsInTabuList(t1, e, 3) && t4.members[e] == {5, 7} && |t4.members[e]| == 2 > t4.size
  {
    var t0 := NewTabuMemory(1, [e]);
    assert t0.queue[e] == [] && t0.members[e] == {};
    var t1 := UpdateTabuList(t0, e, 3);
    assert t1.queue[e] == [3] && t1.members[e] == {3};
    var t2 := UpdateTabuList(t1, e, 3);
    assert t2.queue[e] == [3, 3] && t2.members[e] == {3};
    var t3 := UpdateTabuList(t2, e, 5);
    assert AddToTabuList(t2, e, 5).members[e] == {3, 5};
    assert t3.queue[e] == [3, 5] && t3.members[e] == {5};
    var t4 := UpdateTabuList(t3, e, 7);
    assert AddToTabuList(t3, e, 7).members[e] == {5, 7};
    assert t4.members[e] == {5, 7};
  }
}
