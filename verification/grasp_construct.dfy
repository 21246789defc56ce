/** The GRASP constructor's entry points (GDConstructiveEvent): the
    constructor's parameter checks and construct, which runs
    constructSolution `iterations` times on copies of the start solution
    with one tabu memory and one stream of draws, keeps the first of the
    strictly best runs, and records the best score after every run that
    placed everything. */
module GraspConstruct {
  import opened GraphModel
  import opened Solutions
  import opened RecountProofs
  import opened TabuMemories
  import opened GraspRules
  import opened GraspPhases

  // ---------------------------------------------------------------------
  // The constructor

  const SeWeightsMessage: string := "Constructive procedure error: se_w1 + se_w2 != 1"
  const LeWeightsMessage: string := "Constructive procedure error: le_w1 + le_w2 != 1"
  const IterationsMessage: string := "Constructive procedure error: iterations < 0"

  /** A constructor call either keeps its parameters or throws
      IllegalArgumentException with a message. */
  datatype Constructive = Accepted(cfg: GraspConfig) | Rejected(message: string)

  /** The parameters the constructor accepts. */
  predicate Valid(cfg: GraspConfig)
  {
    cfg.seW1 + cfg.seW2 == 1.0 && cfg.leW1 + cfg.leW2 == 1.0 && cfg.iterations >= 0
  }

  /** The constructor: the short-edge weights are checked first, then the
      long-edge weights, then the iteration count. */
  function NewConstructive(cfg: GraspConfig): (r: Constructive)
    ensures r.Accepted? <==> Valid(cfg)
    ensures r.Accepted? ==> r.cfg == cfg
    ensures cfg.seW1 + cfg.seW2 != 1.0 ==> r == Rejected(SeWeightsMessage)
    ensures cfg.seW1 + cfg.seW2 == 1.0 && cfg.leW1 + cfg.leW2 != 1.0 ==> r == Rejected(LeWeightsMessage)
    ensures cfg.seW1 + cfg.seW2 == 1.0 && cfg.leW1 + cfg.leW2 == 1.0 && cfg.iterations < 0 ==> r == Rejected(IterationsMessage)
  {
    if cfg.seW1 + cfg.seW2 != 1.0 then Rejected(SeWeightsMessage)
    else if cfg.leW1 + cfg.leW2 != 1.0 then Rejected(LeWeightsMessage)
    else if cfg.iterations < 0 then Rejected(IterationsMessage)
    else Accepted(cfg)
  }

  // ---------------------------------------------------------------------
  // The size of the tabu memory

  const IntMin: int := -0x8000_0000

  /** Java's (int) cast of a double: towards zero, saturating at the int
      range (a double that is not a number does not arise from reals). */
  function DoubleToInt(x: real): (r: int)
    ensures IntMin <= r <= IntMax
    ensures x >= IntMax as real ==> r == IntMax
    ensures x <= IntMin as real ==> r == IntMin
    ensures 0.0 <= x < IntMax as real ==> r as real <= x < r as real + 1.0
    ensures IntMin as real < x < 0.0 ==> r as real - 1.0 < x <= r as real
  {
    if x >= IntMax as real then IntMax
    else if x <= IntMin as real then IntMin
    else if x >= 0.0 then x.Floor
    else -((-x).Floor)
  }

  /** The cast is exact on whole numbers in range. */
  lemma DoubleToIntExact(n: int)
    requires IntMin <= n <= IntMax
    ensures DoubleToInt(n as real) == n
  {
    if 0 <= n < IntMax {
      assert (n as real).Floor == n;
    } else if IntMin < n < 0 {
      assert (-(n as real)).Floor == -n;
    }
  }

  /** A fraction of a non-negative amount lies between 0 and the amount. */
  lemma FractionBounds(t: real, w: real, x: real)
    requires 0.0 <= w && x == t * w
    ensures 0.0 <= t <= 1.0 ==> 0.0 <= x <= w
  {
    if 0.0 <= t <= 1.0 {
      var u := 1.0 - t;
      assert 0.0 <= t * w;
      assert 0.0 <= u * w;
      assert u * w == w - x;
    }
  }

  /** sizeOfTabuMemory: the tabu fraction of a layer's width, truncated. */
  function TabuSize(ins: Instance, cfg: GraspConfig): (r: int)
    requires WellFormed(ins)
    ensures IntMin <= r <= IntMax
    ensures 0.0 <= cfg.tabuSize <= 1.0 && Width(ins) <= IntMax ==> 0 <= r <= Width(ins)
  {
    var w := Width(ins) as real;
    var x := cfg.tabuSize * w;
    FractionBounds(cfg.tabuSize, w, x);
    DoubleToInt(x)
  }

  // ---------------------------------------------------------------------
  // construct

  /** The test `s.isBetterThan(bestSolution)` and its outcome: a run with
      strictly fewer crossings replaces the best; both getScore calls cache
      a score. */
  function Keep(ins: Instance, best: Solution, run: Solution): (r: Solution)
    requires WellFormed(ins) && Shaped(ins, best) && Shaped(ins, run) && best.objective < IntMax
    ensures Shaped(ins, r) && r.objective <= best.objective && r.objective < IntMax
    ensures r == best || (r == GetScore(ins, run).0 && r.objective < best.objective)
    ensures GetScore(ins, run).1 < best.objective ==> r == GetScore(ins, run).0
  {
    var sc := GetScore(ins, run);
    var bs := GetScore(ins, best);
    assert bs == (best, best.objective);
    if sc.1 < bs.1 then sc.0 else bs.0
  }

  /** What one run of constructSolution hands to construct's loop: the
      constructed solution when every item found a column. */
  datatype Run = Stuck | Built(s: Solution)

  /** The runs of construct's loop with k iterations left: every run
      starts from s0 and inherits the tabu memory and the draws of the run
      before it, whether that one succeeded or not. */
  function Runs(ins: Instance, cfg: GraspConfig, s0: Solution, t: TabuMemory, k: nat, order: seq<int>, rnd: seq<nat>): (r: seq<Run>)
    requires WellFormed(ins) && Shaped(ins, s0)
    requires TabuReady(cfg, t, ins.longEdges) && forall v :: v in order ==> v in ins.realVertices
    ensures |r| == k && RunsFrom(ins, s0, r)
    decreases k
  {
    if k == 0 then []
    else
      var o := ConstructSolution(ins, cfg, s0, t, order, rnd);
      ConstructSolutionKeepsScore(ins, cfg, s0, t, order, rnd);
      var head := if o.ok then Built(o.b.s) else Stuck;
      var tail := Runs(ins, cfg, s0, o.t, k - 1, order, o.rnd);
      RunsFromCons(ins, s0, head, tail);
      [head] + tail
  }

  /** Every successful run is shaped and carries s0's cached score and
      crossing matrix. */
  ghost predicate RunsFrom(ins: Instance, s0: Solution, runs: seq<Run>)
    requires WellFormed(ins)
  {
    forall i :: 0 <= i < |runs| && runs[i].Built? ==>
      Shaped(ins, runs[i].s) && runs[i].s.objective == s0.objective && runs[i].s.cuts == s0.cuts
  }

  lemma RunsFromCons(ins: Instance, s0: Solution, head: Run, tail: seq<Run>)
    requires WellFormed(ins) && RunsFrom(ins, s0, tail)
    requires head.Built? ==> Shaped(ins, head.s) && head.s.objective == s0.objective && head.s.cuts == s0.cuts
    ensures RunsFrom(ins, s0, [head] + tail)
  {
    forall i | 0 <= i < |[head] + tail| && ([head] + tail)[i].Built?
      ensures Shaped(ins, ([head] + tail)[i].s)
    {
      if i > 0 {
        assert ([head] + tail)[i] == tail[i - 1];
      }
    }
  }

  /** The number of successful runs. */
  function Successes(runs: seq<Run>): nat
  {
    if |runs| == 0 then 0 else (if runs[0].Built? then 1 else 0) + Successes(runs[1..])
  }

  /** The runs' solutions have the instance's shape. */
  ghost predicate RunsShaped(ins: Instance, runs: seq<Run>)
    requires WellFormed(ins)
  {
    forall i :: 0 <= i < |runs| && runs[i].Built? ==> Shaped(ins, runs[i].s)
  }

  /** The bookkeeping of construct's loop over the runs: a successful run
      is compared with the best, and the best's score is appended to the
      evolution; a failed run changes nothing. */
  function Track(ins: Instance, best: Solution, runs: seq<Run>, evolution: seq<int>): (r: (Solution, seq<int>))
    requires WellFormed(ins) && Shaped(ins, best) && best.objective < IntMax && RunsShaped(ins, runs)
    ensures Shaped(ins, r.0) && r.0.objective <= best.objective && r.0.objective < IntMax
    decreases |runs|
  {
    if |runs| == 0 then (best, evolution)
    else
      assert RunsShaped(ins, runs[1..]) by {
        forall i | 0 <= i < |runs[1..]| && runs[1..][i].Built? ensures Shaped(ins, runs[1..][i].s) {
          assert runs[1..][i] == runs[i + 1];
        }
      }
      if runs[0].Built? then
        var best1 := Keep(ins, best, runs[0].s);
        Track(ins, best1, runs[1..], evolution + [GetScore(ins, best1).1])
      else Track(ins, best, runs[1..], evolution)
  }

  /** The tail of a shaped list of runs is shaped. */
  lemma RunsTail(ins: Instance, runs: seq<Run>)
    requires WellFormed(ins) && RunsShaped(ins, runs) && |runs| > 0
    ensures RunsShaped(ins, runs[1..])
    ensures runs[0].Built? ==> Shaped(ins, runs[0].s)
  {
    forall i | 0 <= i < |runs[1..]| && runs[1..][i].Built? ensures Shaped(ins, runs[1..][i].s) {
      assert runs[1..][i] == runs[i + 1];
    }
  }

  /** The evolution gains exactly one entry per successful run; the new
      entries never rise and never exceed the best's score at the start;
      the last is the final best's score, and without a successful run the
      best is unchanged. */
  lemma {:induction false} TrackEvolution(ins: Instance, best: Solution, runs: seq<Run>, evolution: seq<int>)
    requires WellFormed(ins) && Shaped(ins, best) && best.objective < IntMax && RunsShaped(ins, runs)
    ensures var r := Track(ins, best, runs, evolution);
      && |r.1| == |evolution| + Successes(runs)
      && r.1[..|evolution|] == evolution
      && (forall i :: |evolution| <= i < |r.1| ==> r.1[i] <= best.objective)
      && (forall i, j :: |evolution| <= i < j < |r.1| ==> r.1[j] <= r.1[i])
      && (|r.1| > |evolution| ==> r.1[|r.1| - 1] == r.0.objective)
      && (|r.1| == |evolution| ==> r.0 == best)
    decreases |runs|
  {
    if |runs| > 0 {
      RunsTail(ins, runs);
      if runs[0].Built? {
        var best1 := Keep(ins, best, runs[0].s);
        var evolution1 := evolution + [GetScore(ins, best1).1];
        TrackEvolution(ins, best1, runs[1..], evolution1);
        var r := Track(ins, best1, runs[1..], evolution1);
        assert r.1[..|evolution1|] == evolution1;
        assert evolution1[..|evolution|] == evolution;
        assert r.1[..|evolution|] == evolution;
        assert r.1[|evolution|] == best1.objective <= best.objective;
      } else {
        TrackEvolution(ins, best, runs[1..], evolution);
      }
    }
  }

  /** What construct hands back: the best solution and the evolution of
      the best score, or the IllegalArgumentException the tabu memory's
      constructor throws for a negative size. */
  datatype Construction = Finished(best: Solution, evolution: seq<int>) | CapacityRejected

  /** construct(solution): a tabu memory of TabuSize for every long edge
      (which throws when that size is negative and there is a long edge), a
      copy of the start solution with the placeholder score IntMax / 2 as
      the first best, then `iterations` runs (none when negative). The
      result is the best solution and the evolution of the best score. */
  function Construct(ins: Instance, cfg: GraspConfig, s0: Solution, order: seq<int>, rnd: seq<nat>): (r: Construction)
    requires WellFormed(ins) && Shaped(ins, s0) && forall v :: v in order ==> v in ins.realVertices
    ensures r.CapacityRejected? <==> TabuSize(ins, cfg) < 0 && |ins.longEdges| > 0
    ensures r.Finished? ==>
      && Shaped(ins, r.best) && r.best.objective <= IntMax / 2
      && |r.evolution| <= (if cfg.iterations < 0 then 0 else cfg.iterations)
      && (forall i :: 0 <= i < |r.evolution| ==> r.evolution[i] <= IntMax / 2)
      && (forall i, j :: 0 <= i < j < |r.evolution| ==> r.evolution[j] <= r.evolution[i])
      && (|r.evolution| > 0 ==> r.evolution[|r.evolution| - 1] == r.best.objective)
      && (|r.evolution| == 0 ==> r.best == SetScore(s0, IntMax / 2))
  {
    if !Constructible(TabuSize(ins, cfg), ins.longEdges) then CapacityRejected
    else
      var runs := ConstructRuns(ins, cfg, s0, order, rnd);
      SuccessesBound(runs);
      TrackEvolution(ins, SetScore(s0, IntMax / 2), runs, []);
      var tracked := Track(ins, SetScore(s0, IntMax / 2), runs, []);
      Finished(tracked.0, tracked.1)
  }

  /** The runs of construct: one shared tabu memory of TabuSize, fresh for
      every long edge, and `iterations` runs (none when negative). */
  function ConstructRuns(ins: Instance, cfg: GraspConfig, s0: Solution, order: seq<int>, rnd: seq<nat>): (r: seq<Run>)
    requires WellFormed(ins) && Shaped(ins, s0) && forall v :: v in order ==> v in ins.realVertices
    ensures |r| == if cfg.iterations < 0 then 0 else cfg.iterations
    ensures RunsShaped(ins, r) && RunsFrom(ins, s0, r)
  {
    var t := NewTabuMemory(TabuSize(ins, cfg), ins.longEdges);
    assert TabuReady(cfg, t, ins.longEdges);
    Runs(ins, cfg, s0, t, if cfg.iterations < 0 then 0 else cfg.iterations, order, rnd)
  }

  /** There are no more successes than runs. */
  lemma {:induction false} SuccessesBound(runs: seq<Run>)
    ensures Successes(runs) <= |runs|
    decreases |runs|
  {
    if |runs| > 0 {
      SuccessesBound(runs[1..]);
    }
  }

  // ---------------------------------------------------------------------
  // The best score counts crossings

  /** Two solutions with the same embedding have the same crossings. */
  lemma SameEmbeddingCrossings(ins: Instance, a: Solution, c: Solution)
    requires WellFormed(ins) && Shaped(ins, a) && Shaped(ins, c) && a.input == c.input
    ensures CrossingsOf(ins, a) == CrossingsOf(ins, c)
  {
    assert Positions(ins, a) == Positions(ins, c);
  }

  /** The best so far is the placeholder copy or carries the crossing
      number of its own embedding as its score. */
  ghost predicate Counted(ins: Instance, s0: Solution, best: Solution)
    requires WellFormed(ins)
  {
    best == SetScore(s0, IntMax / 2) || (Shaped(ins, best) && best.objective == CrossingsOf(ins, best))
  }

  /** With a start solution that has no cached score, getScore counts the
      crossings of a run, so a best that a run replaced has its true count. */
  lemma KeepCounts(ins: Instance, s0: Solution, best: Solution, run: Solution)
    requires WellFormed(ins) && Shaped(ins, best) && Shaped(ins, run) && best.objective < IntMax
    requires run.objective == IntMax && Counted(ins, s0, best)
    ensures Counted(ins, s0, Keep(ins, best, run))
  {
    CountOntoCorrect(ins, run, run.cuts);
    SameEmbeddingCrossings(ins, run, GetScore(ins, run).0);
  }

  lemma {:induction false} TrackCounts(ins: Instance, s0: Solution, best: Solution, runs: seq<Run>, evolution: seq<int>)
    requires WellFormed(ins) && Shaped(ins, best) && best.objective < IntMax && RunsShaped(ins, runs)
    requires forall i :: 0 <= i < |runs| && runs[i].Built? ==> runs[i].s.objective == IntMax
    requires Counted(ins, s0, best)
    ensures Counted(ins, s0, Track(ins, best, runs, evolution).0)
    decreases |runs|
  {
    if |runs| > 0 {
      RunsTail(ins, runs);
      assert forall i :: 0 <= i < |runs[1..]| && runs[1..][i].Built? ==> runs[1..][i].s.objective == IntMax by {
        forall i | 0 <= i < |runs[1..]| ensures runs[1..][i] == runs[i + 1] { }
      }
      if runs[0].Built? {
        KeepCounts(ins, s0, best, runs[0].s);
        var best1 := Keep(ins, best, runs[0].s);
        TrackCounts(ins, s0, best1, runs[1..], evolution + [GetScore(ins, best1).1]);
      } else {
        TrackCounts(ins, s0, best, runs[1..], evolution);
      }
    }
  }

  /** From a start solution without a cached score, construct returns
      either the placeholder copy (no run beat IntMax / 2) or a solution
      whose score is the crossing number of its embedding. */
  lemma ConstructCounts(ins: Instance, cfg: GraspConfig, s0: Solution, order: seq<int>, rnd: seq<nat>)
    requires WellFormed(ins) && Shaped(ins, s0) && forall v :: v in order ==> v in ins.realVertices
    requires s0.objective == IntMax
    ensures Construct(ins, cfg, s0, order, rnd).Finished? ==> Counted(ins, s0, Construct(ins, cfg, s0, order, rnd).best)
  {
    var runs := ConstructRuns(ins, cfg, s0, order, rnd);
    TrackCounts(ins, s0, SetScore(s0, IntMax / 2), runs, []);
  }
}
