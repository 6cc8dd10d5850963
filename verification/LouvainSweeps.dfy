/** The optimizer's loops as a history: visits make up a sweep, sweeps make up an
    optimization, and an optimization that starts with every node on its own is
    a detection. */
module LouvainSweeps {
  import opened GoMaps
  import opened KnowledgeGraphs
  import opened LouvainRuns
  import opened Modularity
  import opened Partitions

  /** Every node in a community of its own, numbered by position. */
  ghost predicate IsSingletons<T(!new)>(part: map<T, int>, nodes: seq<T>) {
    && part.Keys == (set u | u in nodes)
    && forall i :: 0 <= i < |nodes| ==> At(part, nodes[i]) == i
  }

  lemma SingletonsAreSeparate<T(!new)>(part: map<T, int>, nodes: seq<T>)
    requires IsSingletons(part, nodes)
    ensures AllSeparate(part) && NoneUnassigned(part.Keys, part)
  {
    forall u, v | u in part && v in part && part[u] == part[v] ensures u == v {
      var i :| 0 <= i < |nodes| && nodes[i] == u;
      var j :| 0 <= j < |nodes| && nodes[j] == v;
    }
    forall u | u in part ensures part[u] != -1 {
      var i :| 0 <= i < |nodes| && nodes[i] == u;
    }
  }

  /** What visiting `x` may do: make a best improving move, or nothing at all if
      there is none. */
  ghost predicate IsVisit<T(!new)>(resolution: real, g: KnowledgeGraph<T>, within: set<T>,
                                   before: map<T, int>, x: T, after: map<T, int>) {
    if after == before then forall c :: !Improves(resolution, g, within, before, x, c)
    else exists c :: IsBest(resolution, g, within, before, x, c) && after == before[x := c]
  }

  /** The partitions met while the first nodes of `nodes` are visited in turn. */
  ghost predicate IsPartialSweep<T(!new)>(resolution: real, g: KnowledgeGraph<T>, within: set<T>,
                                          nodes: seq<T>, steps: seq<map<T, int>>) {
    && 0 < |steps| <= |nodes| + 1
    && forall i :: 0 <= i < |steps| - 1 ==> IsVisit(resolution, g, within, steps[i], nodes[i], steps[i + 1])
  }

  /** A sweep visits every node once, in the given order. */
  ghost predicate IsSweep<T(!new)>(resolution: real, g: KnowledgeGraph<T>, within: set<T>,
                                   nodes: seq<T>, steps: seq<map<T, int>>) {
    |steps| == |nodes| + 1 && IsPartialSweep(resolution, g, within, nodes, steps)
  }

  /** The number of visits that moved their node. */
  ghost function Changes<T>(steps: seq<map<T, int>>): nat {
    if |steps| < 2 then 0
    else
      var n := |steps| - 1;
      Changes(steps[..n]) + if steps[n] == steps[n - 1] then 0 else 1
  }

  ghost predicate Improved<T>(steps: seq<map<T, int>>) {
    Changes(steps) > 0
  }

  lemma SweepStarts<T(!new)>(resolution: real, g: KnowledgeGraph<T>, within: set<T>, nodes: seq<T>, part: map<T, int>)
    ensures IsPartialSweep(resolution, g, within, nodes, [part]) && !Improved([part])
  {
  }

  lemma SweepGoesOn<T(!new)>(resolution: real, g: KnowledgeGraph<T>, within: set<T>, nodes: seq<T>,
                             steps: seq<map<T, int>>, next: map<T, int>)
    requires IsPartialSweep(resolution, g, within, nodes, steps) && |steps| <= |nodes|
    requires IsVisit(resolution, g, within, steps[|steps| - 1], nodes[|steps| - 1], next)
    ensures IsPartialSweep(resolution, g, within, nodes, steps + [next])
    ensures Improved(steps + [next]) <==> Improved(steps) || next != steps[|steps| - 1]
  {
    hide IsVisit;
    var longer := steps + [next];
    assert longer[..|steps|] == steps;
    forall i | 0 <= i < |longer| - 1 ensures IsVisit(resolution, g, within, longer[i], nodes[i], longer[i + 1]) {
      if i < |steps| - 1 {
        assert IsVisit(resolution, g, within, steps[i], nodes[i], steps[i + 1]);
      }
    }
  }

  lemma {:induction false} ChangesAtMost<T>(steps: seq<map<T, int>>)
    ensures |steps| > 0 ==> Changes(steps) < |steps|
    ensures |steps| == 0 ==> Changes(steps) == 0
  {
    if |steps| > 1 {
      ChangesAtMost(steps[..|steps| - 1]);
    }
  }

  lemma {:induction false} QuietSteps<T>(steps: seq<map<T, int>>, i: nat)
    requires i < |steps| && !Improved(steps)
    ensures steps[i] == steps[|steps| - 1]
  {
    if i < |steps| - 1 {
      QuietSteps(steps[..|steps| - 1], i);
    }
  }

  /** A sweep that moved nothing has found a local optimum. */
  lemma QuietSweepIsOptimum<T(!new)>(resolution: real, g: KnowledgeGraph<T>, within: set<T>,
                                     nodes: seq<T>, steps: seq<map<T, int>>)
    requires IsSweep(resolution, g, within, nodes, steps) && !Improved(steps) && IsListing(nodes, within)
    ensures IsLocalOptimum(resolution, g, within, steps[|steps| - 1])
  {
    hide Improves, Improved;
    var last := steps[|steps| - 1];
    forall x, c | x in within ensures !Improves(resolution, g, within, last, x, c) {
      assert x in nodes;
      var i :| 0 <= i < |nodes| && nodes[i] == x;
      assert IsVisit(resolution, g, within, steps[i], nodes[i], steps[i + 1]);
      QuietSteps(steps, i);
      QuietSteps(steps, i + 1);
    }
  }

  /** The partition after the sweeps. */
  ghost function EndOf<T>(start: map<T, int>, sweeps: seq<seq<map<T, int>>>): map<T, int> {
    if sweeps == [] || sweeps[|sweeps| - 1] == [] then start
    else
      var steps := sweeps[|sweeps| - 1];
      steps[|steps| - 1]
  }

  /** The loop's flag: no sweep yet, or the last one moved something. */
  ghost predicate WantsMore<T>(sweeps: seq<seq<map<T, int>>>) {
    sweeps == [] || Improved(sweeps[|sweeps| - 1])
  }

  /** Each sweep starts where the one before it ended, and follows one that moved
      something. */
  ghost predicate IsSweeping<T(!new)>(resolution: real, g: KnowledgeGraph<T>, within: set<T>, nodes: seq<T>,
                                      start: map<T, int>, sweeps: seq<seq<map<T, int>>>) {
    sweeps != [] ==>
      var before, steps := sweeps[..|sweeps| - 1], sweeps[|sweeps| - 1];
      && IsSweeping(resolution, g, within, nodes, start, before) && WantsMore(before)
      && IsSweep(resolution, g, within, nodes, steps) && steps[0] == EndOf(start, before)
  }

  /** As above; the sweeps led to `last`, and `more` is the loop's flag. */
  ghost predicate IsSweepingTo<T(!new)>(resolution: real, g: KnowledgeGraph<T>, within: set<T>, nodes: seq<T>,
                                        start: map<T, int>, sweeps: seq<seq<map<T, int>>>,
                                        last: map<T, int>, more: bool) {
    && IsSweeping(resolution, g, within, nodes, start, sweeps)
    && last == EndOf(start, sweeps) && (more <==> WantsMore(sweeps))
  }

  lemma SweepingStarts<T(!new)>(resolution: real, g: KnowledgeGraph<T>, within: set<T>, nodes: seq<T>,
                                start: map<T, int>)
    ensures IsSweepingTo(resolution, g, within, nodes, start, [], start, true)
  {
  }

  lemma SweepingGoesOn<T(!new)>(resolution: real, g: KnowledgeGraph<T>, within: set<T>, nodes: seq<T>,
                                start: map<T, int>, sweeps: seq<seq<map<T, int>>>, last: map<T, int>,
                                steps: seq<map<T, int>>)
    requires IsSweepingTo(resolution, g, within, nodes, start, sweeps, last, true)
    requires IsSweep(resolution, g, within, nodes, steps) && steps[0] == last
    ensures IsSweepingTo(resolution, g, within, nodes, start, sweeps + [steps], steps[|nodes|], Improved(steps))
  {
    var longer := sweeps + [steps];
    assert longer[..|sweeps|] == sweeps && longer[|sweeps|] == steps;
  }

  /** The optimizer: nothing without weight, otherwise sweeps until one of them
      moves nothing or `maxIterations` of them have been made. */
  ghost predicate IsOptimization<T(!new)>(resolution: real, maxIterations: int, g: KnowledgeGraph<T>, within: set<T>,
                                          nodes: seq<T>, start: map<T, int>, sweeps: seq<seq<map<T, int>>>) {
    if g.TotalDegree(within) == 0 then sweeps == []
    else
      && IsSweeping(resolution, g, within, nodes, start, sweeps)
      && |sweeps| <= (if maxIterations < 0 then 0 else maxIterations)
      && (WantsMore(sweeps) ==> |sweeps| >= maxIterations)
  }

  lemma SweepingEnds<T(!new)>(resolution: real, maxIterations: int, g: KnowledgeGraph<T>, within: set<T>, nodes: seq<T>,
                              start: map<T, int>, sweeps: seq<seq<map<T, int>>>, last: map<T, int>, more: bool)
    requires g.TotalDegree(within) != 0
    requires IsSweepingTo(resolution, g, within, nodes, start, sweeps, last, more)
    requires |sweeps| <= (if maxIterations < 0 then 0 else maxIterations) && (more ==> |sweeps| >= maxIterations)
    ensures IsOptimization(resolution, maxIterations, g, within, nodes, start, sweeps) && last == EndOf(start, sweeps)
  {
  }

  /** The order in which nodes were visited, the initial partition and what the
      sweeps made of it. */
  datatype Detection<!T(!new)> = Detection(nodes: seq<T>, start: map<T, int>, sweeps: seq<seq<map<T, int>>>)
  {
    ghost function End(): map<T, int> {
      EndOf(start, sweeps)
    }
  }

  /** How a community detection on `within` may go. */
  ghost predicate IsDetection<T(!new)>(resolution: real, maxIterations: int, g: KnowledgeGraph<T>, within: set<T>,
                                       d: Detection<T>) {
    && IsListing(d.nodes, within)
    && d.start.Keys == d.End().Keys == within && IsSingletons(d.start, d.nodes)
    && IsOptimization(resolution, maxIterations, g, within, d.nodes, d.start, d.sweeps)
  }

  /** The groups are the communities at the end of a possible detection. */
  ghost predicate IsDetected<T(!new)>(groups: map<int, seq<T>>, resolution: real, maxIterations: int,
                                      g: KnowledgeGraph<T>, within: set<T>) {
    exists d :: IsDetection(resolution, maxIterations, g, within, d) && IsGrouping(groups, d.End())
  }

  lemma Detected<T(!new)>(groups: map<int, seq<T>>, resolution: real, maxIterations: int, g: KnowledgeGraph<T>,
                          within: set<T>, d: Detection<T>, part: map<T, int>)
    requires IsListing(d.nodes, within) && d.start.Keys == part.Keys == within && IsSingletons(d.start, d.nodes)
    requires IsOptimization(resolution, maxIterations, g, within, d.nodes, d.start, d.sweeps)
    requires part == EndOf(d.start, d.sweeps) && IsGrouping(groups, part)
    ensures IsDetected(groups, resolution, maxIterations, g, within)
  {
    assert IsDetection(resolution, maxIterations, g, within, d);
  }

  lemma NothingOptimized<T(!new)>(resolution: real, maxIterations: int, g: KnowledgeGraph<T>, within: set<T>,
                                  nodes: seq<T>, start: map<T, int>)
    requires g.TotalDegree(within) == 0
    ensures IsOptimization(resolution, maxIterations, g, within, nodes, start, []) && EndOf(start, []) == start
  {
  }

  lemma NothingDetected<T(!new)>(resolution: real, maxIterations: int, g: KnowledgeGraph<T>, within: set<T>,
                                 nodes: seq<T>, part: map<T, int>)
    requires g.TotalDegree(within) == 0
    requires IsListing(nodes, within) && part.Keys == within && IsSingletons(part, nodes)
    ensures IsDetection(resolution, maxIterations, g, within, Detection(nodes, part, []))
    ensures Detection(nodes, part, []).End() == part
  {
  }

  // ---------- What a detection achieves ----------

  lemma NothingToGain<T(!new)>(resolution: real, g: KnowledgeGraph<T>, within: set<T>, part: map<T, int>)
    requires g.TotalDegree(within) == 0
    ensures IsLocalOptimum(resolution, g, within, part)
  {
  }

  /** A detection that was not stopped by the limit ends in a local optimum: it
      does so if its last sweep moved nothing, if it made fewer sweeps than
      allowed, and if there is no weight to gain. */
  lemma DetectionReachesOptimum<T(!new)>(resolution: real, maxIterations: int, g: KnowledgeGraph<T>, within: set<T>,
                                         d: Detection<T>)
    requires IsDetection(resolution, maxIterations, g, within, d)
    requires !WantsMore(d.sweeps) || |d.sweeps| < maxIterations || g.TotalDegree(within) == 0
    ensures IsLocalOptimum(resolution, g, within, d.End())
  {
    hide KnowledgeGraph.TotalDegree, IsSingletons, IsListing, IsPartialSweep, Improved, Improves;
    if g.TotalDegree(within) == 0 {
      NothingToGain(resolution, g, within, d.End());
    } else {
      QuietSweepIsOptimum(resolution, g, within, d.nodes, d.sweeps[|d.sweeps| - 1]);
    }
  }

  /** The number of moves of all sweeps together. */
  ghost function Moves<T>(sweeps: seq<seq<map<T, int>>>): nat {
    if sweeps == [] then 0 else Moves(sweeps[..|sweeps| - 1]) + Changes(sweeps[|sweeps| - 1])
  }

  lemma {:induction false} StepsMakeRun<T(!new)>(resolution: real, g: KnowledgeGraph<T>, within: set<T>, nodes: seq<T>,
                                                 first: map<T, int>, trace: seq<map<T, int>>, steps: seq<map<T, int>>)
    returns (longer: seq<map<T, int>>)
    requires IsPartialSweep(resolution, g, within, nodes, steps) && forall x :: x in nodes ==> x in within
    requires IsRunBetween(resolution, g, within, first, steps[0], trace)
    ensures IsRunBetween(resolution, g, within, first, steps[|steps| - 1], longer)
    ensures |longer| == |trace| + Changes(steps)
  {
    hide IsRunBetween, IsBest, Improves;
    var n := |steps| - 1;
    if n == 0 {
      longer := trace;
    } else {
      longer := StepsMakeRun(resolution, g, within, nodes, first, trace, steps[..n]);
      assert IsVisit(resolution, g, within, steps[n - 1], nodes[n - 1], steps[n - 1 + 1]);
      if steps[n] != steps[n - 1] {
        assert nodes[n - 1] in nodes;
        assert IsMove(resolution, g, within, steps[n - 1], steps[n]);
        RunExtends(resolution, g, within, first, steps[n - 1], steps[n], longer);
        longer := longer + [steps[n]];
      }
    }
  }

  /** The moves of the sweeps form a run; every sweep but the last adds at least
      one move to it, and each adds at most one for every node. */
  lemma {:induction false} SweepsMakeRun<T(!new)>(resolution: real, g: KnowledgeGraph<T>, within: set<T>, nodes: seq<T>,
                                                  start: map<T, int>, sweeps: seq<seq<map<T, int>>>)
    returns (trace: seq<map<T, int>>)
    requires IsSweeping(resolution, g, within, nodes, start, sweeps) && forall x :: x in nodes ==> x in within
    ensures IsRunBetween(resolution, g, within, start, EndOf(start, sweeps), trace)
    ensures |trace| - 1 == Moves(sweeps) <= |sweeps| * |nodes|
    ensures |sweeps| <= Moves(sweeps) + if WantsMore(sweeps) then 0 else 1
  {
    if sweeps == [] {
      trace := [start];
      RunStarts(resolution, g, within, start);
    } else {
      var n := |sweeps| - 1;
      hide IsRunBetween, IsPartialSweep, Changes;
      trace := SweepsMakeRun(resolution, g, within, nodes, start, sweeps[..n]);
      trace := StepsMakeRun(resolution, g, within, nodes, start, trace, sweeps[n]);
      ChangesAtMost(sweeps[n]);
      assert (n + 1) * |nodes| == n * |nodes| + |nodes|;
    }
  }

  lemma DetectionMakesRun<T(!new)>(resolution: real, maxIterations: int, g: KnowledgeGraph<T>, within: set<T>,
                                   d: Detection<T>)
    returns (trace: seq<map<T, int>>)
    requires IsDetection(resolution, maxIterations, g, within, d)
    ensures IsRunBetween(resolution, g, within, d.start, d.End(), trace)
    ensures |trace| - 1 == Moves(d.sweeps) <= |d.sweeps| * |d.nodes|
    ensures |d.sweeps| <= Moves(d.sweeps) + if WantsMore(d.sweeps) then 0 else 1
  {
    hide KnowledgeGraph.TotalDegree;
    if g.TotalDegree(within) == 0 {
      assert IsSweeping(resolution, g, within, d.nodes, d.start, d.sweeps);
    }
    trace := SweepsMakeRun(resolution, g, within, d.nodes, d.start, d.sweeps);
  }

  /** What is detected on the whole graph has at least the from-scratch modularity
      of all nodes being alone, and more if anything was moved. */
  lemma DetectionRaisesScratchModularity<T(!new)>(resolution: real, maxIterations: int, g: KnowledgeGraph<T>,
                                                  d: Detection<T>)
    requires IsDetection(resolution, maxIterations, g, g.nodes, d)
    requires resolution > 0.0 && g.TotalDegree(g.nodes) != 0
    ensures AllSeparate(d.start)
    ensures ScratchModularity(g, d.End()) >= ScratchModularity(g, d.start)
    ensures Moves(d.sweeps) > 0 ==> ScratchModularity(g, d.End()) > ScratchModularity(g, d.start)
    ensures !AllSeparate(d.End()) ==> Moves(d.sweeps) > 0
  {
    SingletonsAreSeparate(d.start, d.nodes);
    var trace := DetectionMakesRun(resolution, maxIterations, g, g.nodes, d);
    RunUnfolds(resolution, g, g.nodes, d.start, d.End(), trace);
    assert NoneUnassigned(g.nodes, d.start);
    hide *;
    RunRaisesScratchModularity(resolution, g, trace);
  }

  /** With non-negative weights the sweeps end on their own, after at most
      m2 * m2 + 1 of them, so a limit above m2 * m2 never cuts a detection short
      of a local optimum. */
  lemma RoomyLimitReachesOptimum<T(!new)>(resolution: real, maxIterations: int, g: KnowledgeGraph<T>, within: set<T>,
                                          d: Detection<T>)
    requires IsDetection(resolution, maxIterations, g, within, d) && NonNegativeWeights(g)
    ensures var m2 := g.TotalDegree(within); |d.sweeps| <= m2 * m2 + 1
    ensures var m2 := g.TotalDegree(within); m2 * m2 < maxIterations ==> IsLocalOptimum(resolution, g, within, d.End())
  {
    var trace := DetectionMakesRun(resolution, maxIterations, g, within, d);
    RunUnfolds(resolution, g, within, d.start, d.End(), trace);
    var m2 := g.TotalDegree(within);
    assert m2 != 0 && |d.sweeps| < maxIterations ==> !WantsMore(d.sweeps);
    hide *;
    RunIsBounded(resolution, g, within, trace);
    if m2 * m2 < maxIterations {
      if WantsMore(d.sweeps) {
        assert |d.sweeps| < maxIterations;
      }
      DetectionReachesOptimum(resolution, maxIterations, g, within, d);
    }
  }
}
