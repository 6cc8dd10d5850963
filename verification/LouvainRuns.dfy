/** What a run of the greedy optimizer is allowed to do, and what every such
    run achieves. */
module LouvainRuns {
  import opened GoMaps
  import opened KnowledgeGraphs
  import opened Modularity

  /** `c` is a community in which `x` has a neighbour other than itself. */
  ghost predicate Neighbouring<T(!new)>(g: KnowledgeGraph<T>, within: set<T>, part: map<T, int>, x: T, c: int) {
    exists v :: v in within && v != x && g.Linked(x, v) && At(part, v) == c
  }

  /** `c` is a target the optimizer considers for `x`. */
  ghost predicate IsTarget<T(!new)>(g: KnowledgeGraph<T>, within: set<T>, part: map<T, int>, x: T, c: int) {
    c != At(part, x) && Neighbouring(g, within, part, x, c)
  }

  ghost predicate Improves<T(!new)>(resolution: real, g: KnowledgeGraph<T>, within: set<T>, part: map<T, int>, x: T,
                                    c: int) {
    g.TotalDegree(within) != 0 && IsTarget(g, within, part, x, c)
    && MoveDeltaQ(resolution, g, within, part, x, c) > 0.0
  }

  /** An improving move no other target of `x` beats. */
  ghost predicate IsBest<T(!new)>(resolution: real, g: KnowledgeGraph<T>, within: set<T>, part: map<T, int>, x: T,
                                  c: int) {
    && Improves(resolution, g, within, part, x, c)
    && forall d :: IsTarget(g, within, part, x, d) ==>
         MoveDeltaQ(resolution, g, within, part, x, d) <= MoveDeltaQ(resolution, g, within, part, x, c)
  }

  ghost predicate IsMove<T(!new)>(resolution: real, g: KnowledgeGraph<T>, within: set<T>, before: map<T, int>,
                                  after: map<T, int>) {
    exists x, c :: x in within && IsBest(resolution, g, within, before, x, c) && after == before[x := c]
  }

  /** The partitions met during a run, one for each accepted move. */
  ghost predicate IsRun<T(!new)>(resolution: real, g: KnowledgeGraph<T>, within: set<T>, trace: seq<map<T, int>>) {
    |trace| > 0 && forall i :: 0 <= i < |trace| - 1 ==> IsMove(resolution, g, within, trace[i], trace[i + 1])
  }

  ghost predicate IsRunBetween<T(!new)>(resolution: real, g: KnowledgeGraph<T>, within: set<T>,
                                        first: map<T, int>, last: map<T, int>, trace: seq<map<T, int>>) {
    IsRun(resolution, g, within, trace) && trace[0] == first && trace[|trace| - 1] == last
  }

  lemma RunStarts<T(!new)>(resolution: real, g: KnowledgeGraph<T>, within: set<T>, part: map<T, int>)
    ensures IsRunBetween(resolution, g, within, part, part, [part])
  {
  }

  lemma RunExtends<T(!new)>(resolution: real, g: KnowledgeGraph<T>, within: set<T>,
                            first: map<T, int>, last: map<T, int>, next: map<T, int>, trace: seq<map<T, int>>)
    requires IsRunBetween(resolution, g, within, first, last, trace) && IsMove(resolution, g, within, last, next)
    ensures IsRunBetween(resolution, g, within, first, next, trace + [next])
  {
    hide IsMove;
    var longer := trace + [next];
    forall i | 0 <= i < |longer| - 1 ensures IsMove(resolution, g, within, longer[i], longer[i + 1]) {
      if i < |trace| - 1 {
        assert IsMove(resolution, g, within, trace[i], trace[i + 1]);
      }
    }
  }

  lemma RunUnfolds<T(!new)>(resolution: real, g: KnowledgeGraph<T>, within: set<T>,
                            first: map<T, int>, last: map<T, int>, trace: seq<map<T, int>>)
    requires IsRunBetween(resolution, g, within, first, last, trace)
    ensures IsRun(resolution, g, within, trace) && |trace| > 0 && trace[0] == first && trace[|trace| - 1] == last
  {
  }

  /** No node can gain by joining a neighbouring community. */
  ghost predicate IsLocalOptimum<T(!new)>(resolution: real, g: KnowledgeGraph<T>, within: set<T>, part: map<T, int>) {
    forall x, c :: x in within ==> !Improves(resolution, g, within, part, x, c)
  }

  lemma ImprovesUnfolds<T(!new)>(resolution: real, g: KnowledgeGraph<T>, within: set<T>, part: map<T, int>, x: T,
                                 c: int)
    requires Improves(resolution, g, within, part, x, c)
    ensures g.TotalDegree(within) != 0 && c != At(part, x) && MoveDeltaQ(resolution, g, within, part, x, c) > 0.0
  {
  }

  lemma SignOfGain(r: real, gain: int, d: int)
    requires d > 0 && r * gain as real / d as real > 0.0
    ensures r > 0.0 ==> gain >= 1
    ensures r < 0.0 ==> gain <= -1
    ensures r != 0.0
  {
    assert r * gain as real > 0.0;
  }

  /** An accepted move has a gain of the resolution's sign, so with a positive
      resolution it is a strictly positive integer. */
  lemma GainOfImprovement<T(!new)>(resolution: real, g: KnowledgeGraph<T>, within: set<T>, part: map<T, int>, x: T,
                                   c: int)
    requires Improves(resolution, g, within, part, x, c)
    ensures resolution > 0.0 ==> Gain(g, within, part, x, c) >= 1
    ensures resolution < 0.0 ==> Gain(g, within, part, x, c) <= -1
    ensures resolution != 0.0
  {
    hide *;
    assert g.TotalDegree(within) != 0 && MoveDeltaQ(resolution, g, within, part, x, c) > 0.0 by {
      ImprovesUnfolds(resolution, g, within, part, x, c);
    }
    MoveDeltaQIsScaledGain(resolution, g, within, part, x, c);
    var m2 := g.TotalDegree(within);
    SignOfGain(resolution, Gain(g, within, part, x, c), m2 * m2);
  }

  /** The potential argument: one move shifts the scaled modularity by at
      least two, upwards exactly when the resolution is positive. */
  lemma MoveShiftsModularity<T(!new)>(resolution: real, g: KnowledgeGraph<T>, within: set<T>, before: map<T, int>,
                                      after: map<T, int>)
    requires IsMove(resolution, g, within, before, after)
    ensures resolution != 0.0
    ensures resolution > 0.0 ==> ScaledModularity(g, within, after) >= ScaledModularity(g, within, before) + 2
    ensures resolution < 0.0 ==> ScaledModularity(g, within, after) <= ScaledModularity(g, within, before) - 2
  {
    var x, c :| x in within && IsBest(resolution, g, within, before, x, c) && after == before[x := c];
    assert Improves(resolution, g, within, before, x, c);
    hide *;
    GainOfImprovement(resolution, g, within, before, x, c);
    ImprovesUnfolds(resolution, g, within, before, x, c);
    MoveChangesModularity(g, within, before, x, c);
  }

  lemma RunPrefix<T(!new)>(resolution: real, g: KnowledgeGraph<T>, within: set<T>, trace: seq<map<T, int>>)
    requires IsRun(resolution, g, within, trace) && |trace| > 1
    ensures IsRun(resolution, g, within, trace[..|trace| - 1])
    ensures IsMove(resolution, g, within, trace[|trace| - 2], trace[|trace| - 1])
  {
    var n := |trace| - 1;
    assert IsMove(resolution, g, within, trace[n - 1], trace[n - 1 + 1]);
    forall i | 0 <= i < n - 1 ensures IsMove(resolution, g, within, trace[..n][i], trace[..n][i + 1]) {
      assert IsMove(resolution, g, within, trace[i], trace[i + 1]);
    }
  }

  /** Over a whole run the shifts add up, one for each move. */
  lemma {:induction false} RunShiftsModularity<T(!new)>(resolution: real, g: KnowledgeGraph<T>, within: set<T>,
                                                        trace: seq<map<T, int>>)
    requires IsRun(resolution, g, within, trace)
    ensures |trace| > 1 ==> resolution != 0.0
    ensures resolution > 0.0 ==>
              ScaledModularity(g, within, trace[|trace| - 1])
              >= ScaledModularity(g, within, trace[0]) + 2 * (|trace| - 1)
    ensures resolution < 0.0 ==>
              ScaledModularity(g, within, trace[|trace| - 1])
              <= ScaledModularity(g, within, trace[0]) - 2 * (|trace| - 1)
    decreases |trace|
  {
    assert |trace| > 0;
    hide *;
    var n := |trace| - 1;
    if n > 0 {
      RunPrefix(resolution, g, within, trace);
      assert |trace[..n]| == n && trace[..n][0] == trace[0] && trace[..n][n - 1] == trace[n - 1];
      RunShiftsModularity(resolution, g, within, trace[..n]);
      MoveShiftsModularity(resolution, g, within, trace[n - 1], trace[n]);
    }
  }

  lemma NonNegativeSquare(m: int)
    ensures m * m >= 0
  {
  }

  /** With non-negative weights no run is longer than m2 * m2 moves, so the
      sweep ends on its own, whatever the iteration limit. */
  lemma RunIsBounded<T(!new)>(resolution: real, g: KnowledgeGraph<T>, within: set<T>, trace: seq<map<T, int>>)
    requires IsRun(resolution, g, within, trace) && NonNegativeWeights(g)
    ensures var m2 := g.TotalDegree(within); |trace| - 1 <= m2 * m2
  {
    assert |trace| > 0;
    hide *;
    RunShiftsModularity(resolution, g, within, trace);
    ScaledModularityBounded(g, within, trace[0]);
    ScaledModularityBounded(g, within, trace[|trace| - 1]);
    NonNegativeSquare(g.TotalDegree(within));
  }

  lemma CompareFractions(x: int, y: int, d: int)
    requires d > 0
    ensures x <= y ==> x as real / d as real <= y as real / d as real
    ensures x < y ==> x as real / d as real < y as real / d as real
  {
  }

  /** With a positive resolution, modularity never falls during a run, and any
      move at all makes it strictly larger. */
  lemma RunRaisesModularity<T(!new)>(resolution: real, g: KnowledgeGraph<T>, within: set<T>, trace: seq<map<T, int>>)
    requires IsRun(resolution, g, within, trace) && resolution > 0.0 && g.TotalDegree(within) != 0
    ensures ModularityOf(g, within, trace[|trace| - 1]) >= ModularityOf(g, within, trace[0])
    ensures |trace| > 1 ==> ModularityOf(g, within, trace[|trace| - 1]) > ModularityOf(g, within, trace[0])
  {
    RunShiftsModularity(resolution, g, within, trace);
    var m2 := g.TotalDegree(within);
    SquarePositive(m2);
    CompareFractions(ScaledModularity(g, within, trace[0]), ScaledModularity(g, within, trace[|trace| - 1]), m2 * m2);
  }

  ghost predicate NoneUnassigned<T(!new)>(within: set<T>, part: map<T, int>) {
    forall u :: u in within ==> u in part && part[u] != -1
  }

  lemma MoveKeepsAssigned<T(!new)>(resolution: real, g: KnowledgeGraph<T>, within: set<T>, before: map<T, int>,
                                   after: map<T, int>)
    requires IsMove(resolution, g, within, before, after) && NoneUnassigned(within, before)
    ensures NoneUnassigned(within, after)
  {
    hide MoveDeltaQ;
    var x, c :| x in within && IsBest(resolution, g, within, before, x, c) && after == before[x := c];
    assert Neighbouring(g, within, before, x, c);
  }

  /** A move never invents a community number, so nobody becomes unassigned. */
  lemma {:induction false} RunKeepsAssigned<T(!new)>(resolution: real, g: KnowledgeGraph<T>, within: set<T>,
                                                     trace: seq<map<T, int>>)
    requires IsRun(resolution, g, within, trace) && NoneUnassigned(within, trace[0])
    ensures NoneUnassigned(within, trace[|trace| - 1])
    decreases |trace|
  {
    var n := |trace| - 1;
    if n > 0 {
      RunPrefix(resolution, g, within, trace);
      RunKeepsAssigned(resolution, g, within, trace[..n]);
      MoveKeepsAssigned(resolution, g, within, trace[n - 1], trace[n]);
    }
  }

  /** The value the graph layer computes from scratch, for all its nodes. */
  ghost function ScratchModularity<T(!new)>(g: KnowledgeGraph<T>, community: map<T, int>): real
    requires g.TotalDegree(g.nodes) != 0
  {
    Score(g, community, Assigned(g, community))
  }

  /** Every accepted move changes the from-scratch modularity by exactly twice
      the increment over the resolution. */
  lemma MoveChangesScratchModularity<T(!new)>(resolution: real, g: KnowledgeGraph<T>, part: map<T, int>, x: T, c: int)
    requires g.TotalDegree(g.nodes) != 0 && resolution != 0.0
    requires x in g.nodes && c != At(part, x) && c != -1 && NoneUnassigned(g.nodes, part)
    ensures ScratchModularity(g, part[x := c]) - ScratchModularity(g, part)
         == 2.0 * MoveDeltaQ(resolution, g, g.nodes, part, x, c) / resolution
  {
    hide Score, ModularityOf, MoveDeltaQ;
    ScoreIsModularity(g, part);
    ScoreIsModularity(g, part[x := c]);
    DeltaQIsHalfTheChange(resolution, g, g.nodes, part, x, c);
  }

  /** So over a run on the whole graph the from-scratch modularity rises, and
      strictly if any node moved. */
  lemma RunRaisesScratchModularity<T(!new)>(resolution: real, g: KnowledgeGraph<T>, trace: seq<map<T, int>>)
    requires g.TotalDegree(g.nodes) != 0 && resolution > 0.0
    requires IsRun(resolution, g, g.nodes, trace) && NoneUnassigned(g.nodes, trace[0])
    ensures ScratchModularity(g, trace[|trace| - 1]) >= ScratchModularity(g, trace[0])
    ensures |trace| > 1 ==> ScratchModularity(g, trace[|trace| - 1]) > ScratchModularity(g, trace[0])
  {
    hide Score, ModularityOf;
    RunKeepsAssigned(resolution, g, g.nodes, trace);
    RunRaisesModularity(resolution, g, g.nodes, trace);
    ScoreIsModularity(g, trace[0]);
    ScoreIsModularity(g, trace[|trace| - 1]);
  }
}
