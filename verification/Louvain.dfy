/** The greedy single-level optimizer and its mutable context. */
module Louvain {
  import opened Wrappers
  import opened GoMaps
  import opened Sums
  import opened KnowledgeGraphs
  import opened Partitions
  import opened Modularity
  import opened LouvainRuns
  import opened LouvainSweeps

  /** One row of the adjacency: the linked nodes of `within` and their weights. */
  ghost predicate IsRow<T(!new)>(row: map<T, int>, g: KnowledgeGraph<T>, within: set<T>, u: T) {
    && row.Keys == (set v | v in within && g.Linked(u, v))
    && forall v :: v in row ==> row[v] == g.LinkWeight(u, v)
  }

  /** The row holds exactly what the edges read so far contribute to it. */
  ghost predicate IsRowOf<T(!new)>(row: map<T, int>, within: set<T>, edges: seq<GraphEdge<T>>, u: T) {
    && (forall v :: v in row <==> v in within && exists e :: e in edges && e.Other(u) == v)
    && (forall v :: v in within ==> At(row, v) == ListSum(edges, EntryShare(u, v)))
  }

  lemma SeenOrNew<T(!new)>(edges: seq<GraphEdge<T>>, edge: GraphEdge<T>, u: T, v: T)
    ensures (exists e :: e in edges + [edge] && e.Other(u) == v) <==>
            edge.Other(u) == v || exists e :: e in edges && e.Other(u) == v
  {
    if edge.Other(u) == v { assert edge in edges + [edge]; }
    if e :| e in edges && e.Other(u) == v { assert e in edges + [edge]; }
  }

  lemma RowStep<T(!new)>(row: map<T, int>, within: set<T>, edges: seq<GraphEdge<T>>, edge: GraphEdge<T>, u: T)
    requires IsRowOf(row, within, edges, u)
    ensures var v := edge.Other(u);
            IsRowOf(if v in within then row[v := At(row, v) + edge.weight] else row, within, edges + [edge], u)
  {
    var w, more := edge.Other(u), edges + [edge];
    var row' := if w in within then row[w := At(row, w) + edge.weight] else row;
    forall v ensures v in row' <==> v in within && exists e :: e in more && e.Other(u) == v {
      SeenOrNew(edges, edge, u, v);
    }
    assert more[..|edges|] == edges;
    forall v | v in within ensures At(row', v) == ListSum(more, EntryShare(u, v)) {
      assert ListSum(more, EntryShare(u, v)) == ListSum(edges, EntryShare(u, v)) + EntryShare(u, v)(edge);
    }
  }

  lemma EmptyRow<T(!new)>(within: set<T>, u: T)
    ensures IsRowOf(map[], within, [], u)
  {
  }

  lemma RowIsComplete<T(!new)>(g: KnowledgeGraph<T>, within: set<T>, edges: seq<GraphEdge<T>>, u: T, row: map<T, int>)
    requires g.IsIncidence(edges, u) && IsRowOf(row, within, edges, u)
    ensures IsRow(row, g, within, u)
  {
    forall v | v in row ensures row[v] == g.LinkWeight(u, v) {
      IncidenceGivesLinkWeight(g, edges, u, v);
    }
    forall v | v in within ensures v in row <==> g.Linked(u, v) {
      if v in row {
        var e :| e in edges && e.Other(u) == v;
        assert multiset(edges)[e] > 0;
        assert e in g.edges && Joins(e, u, v);
      }
      if g.Linked(u, v) {
        var e :| e in g.edges && Joins(e, u, v);
        assert multiset(edges)[e] == e.Ends(u) > 0;
        assert e in edges && e.Other(u) == v;
      }
    }
  }

  /** Reads the edges listed at `u` into a row and a degree. Far ends outside
      the filter are skipped. */
  method ReadRow<T(==,!new)>(g: KnowledgeGraph<T>, ghost within: set<T>, filter: Option<set<T>>, u: T)
    returns (neighborWeights: map<T, int>, degree: int)
    requires g.Valid() && u in within
    requires within == if filter.Some? then filter.value else g.nodes
    ensures IsRow(neighborWeights, g, within, u)
    ensures degree == g.Degree(within, u)
  {
    neighborWeights, degree := map[], 0;
    var edges := g.GetEdgesById(u);
    hide IsRowOf, IsRow, KnowledgeGraph.Degree;
    assert IsRowOf(neighborWeights, within, edges[..0], u) by { EmptyRow(within, u); }
    for i := 0 to |edges|
      invariant IsRowOf(neighborWeights, within, edges[..i], u)
      invariant degree == ListSum(edges[..i], WithinShare(within, u))
    {
      var edge := edges[i];
      var neighborId := edge.Other(u);
      assert multiset(edges)[edge] > 0 && edge in g.edges;
      assert edges[..i + 1] == edges[..i] + [edge];
      assert edges[..i + 1][..i] == edges[..i];
      RowStep(neighborWeights, within, edges[..i], edge, u);
      if filter == None || neighborId in filter.value {
        neighborWeights := neighborWeights[neighborId := At(neighborWeights, neighborId) + edge.weight];
        degree := degree + edge.weight;
      }
    }
    assert edges[..|edges|] == edges;
    RowIsComplete(g, within, edges, u, neighborWeights);
    IncidenceGivesDegree(g, edges, within, u);
  }

  /** The tally holds exactly what the neighbours seen so far contribute. */
  ghost predicate IsTallyOf<T(!new)>(tally: map<int, int>, g: KnowledgeGraph<T>, part: map<T, int>, x: T,
                                     seen: seq<T>) {
    && (forall c :: c in tally <==> exists v :: v in seen && v != x && At(part, v) == c)
    && (forall c :: At(tally, c) == ListSum(seen, Towards(LinkMatrix(g), part, x, c)))
  }

  ghost predicate IsTally<T(!new)>(tally: map<int, int>, g: KnowledgeGraph<T>, within: set<T>, part: map<T, int>,
                                   x: T) {
    && (forall c :: c in tally <==> Neighbouring(g, within, part, x, c))
    && (forall c :: At(tally, c) == EdgesTo(g, within, part, x, c))
  }

  lemma EmptyTally<T(!new)>(g: KnowledgeGraph<T>, part: map<T, int>, x: T)
    ensures IsTallyOf(map[], g, part, x, [])
  {
  }

  lemma TallyStep<T(!new)>(tally: map<int, int>, g: KnowledgeGraph<T>, part: map<T, int>, x: T, seen: seq<T>, v: T)
    requires IsTallyOf(tally, g, part, x, seen)
    ensures var c := At(part, v);
            IsTallyOf(if v != x then tally[c := At(tally, c) + g.LinkWeight(x, v)] else tally, g, part, x, seen + [v])
  {
    var c0, more := At(part, v), seen + [v];
    var tally' := if v != x then tally[c0 := At(tally, c0) + g.LinkWeight(x, v)] else tally;
    assert more[..|seen|] == seen;
    forall c ensures c in tally' <==> exists u :: u in more && u != x && At(part, u) == c {
      if v != x && c == c0 { assert v in more; }
      if u :| u in seen && u != x && At(part, u) == c { assert u in more; }
    }
    forall c ensures At(tally', c) == ListSum(more, Towards(LinkMatrix(g), part, x, c)) {
      assert LinkMatrix(g)(x, v) == g.LinkWeight(x, v);
    }
  }

  lemma PullOverRow<T(!new)>(g: KnowledgeGraph<T>, within: set<T>, part: map<T, int>, x: T, c: int, row: map<T, int>,
                             neighbors: seq<T>)
    requires IsRow(row, g, within, x) && IsListing(neighbors, row.Keys)
    ensures ListSum(neighbors, Towards(LinkMatrix(g), part, x, c)) == EdgesTo(g, within, part, x, c)
  {
    var f := Towards(LinkMatrix(g), part, x, c);
    ListingSum(neighbors, row.Keys, f);
    forall v | v in within - row.Keys ensures f(v) == 0 {
      LinkWeightUnlinked(g, x, v);
    }
    SumSubset(row.Keys, within, f);
  }

  lemma TallyIsComplete<T(!new)>(tally: map<int, int>, g: KnowledgeGraph<T>, within: set<T>, part: map<T, int>, x: T,
                                 row: map<T, int>, neighbors: seq<T>)
    requires IsRow(row, g, within, x) && IsListing(neighbors, row.Keys)
    requires IsTallyOf(tally, g, part, x, neighbors)
    ensures IsTally(tally, g, within, part, x)
  {
    forall c ensures c in tally <==> Neighbouring(g, within, part, x, c) {
      if v :| v in within && v != x && g.Linked(x, v) && At(part, v) == c {
        assert v in row && v in neighbors;
      }
    }
    forall c ensures At(tally, c) == EdgesTo(g, within, part, x, c) {
      PullOverRow(g, within, part, x, c, row, neighbors);
    }
  }

  /** The totals held for each community are those of the partition. */
  ghost predicate TotalsAgree<T(!new)>(totals: map<int, int>, g: KnowledgeGraph<T>, within: set<T>, part: map<T, int>) {
    forall c :: At(totals, c) == CommunityDegree(g, within, part, c)
  }

  /** Takes `k` from one total and adds it to another. */
  function Transfer(totals: map<int, int>, from: int, to: int, k: int): map<int, int> {
    var left := totals[from := At(totals, from) - k];
    left[to := At(left, to) + k]
  }

  /** The weights from `x` to each community a neighbour of it is in. */
  method EdgesToCommunities<T(==,!new)>(ghost g: KnowledgeGraph<T>, ghost within: set<T>, nodeToCommunity: map<T, int>,
                                        x: T,
                                        neighbors: map<T, int>)
    returns (edgesToCommunity: map<int, int>)
    requires IsRow(neighbors, g, within, x)
    ensures IsTally(edgesToCommunity, g, within, nodeToCommunity, x)
  {
    edgesToCommunity := map[];
    var ids := ListOf(neighbors.Keys);
    EmptyTally(g, nodeToCommunity, x);
    hide IsTallyOf, IsTally, KnowledgeGraph.LinkWeight;
    for i := 0 to |ids|
      invariant IsTallyOf(edgesToCommunity, g, nodeToCommunity, x, ids[..i])
    {
      var neighborId := ids[i];
      assert ids[..i + 1] == ids[..i] + [neighborId];
      TallyStep(edgesToCommunity, g, nodeToCommunity, x, ids[..i], neighborId);
      if neighborId != x {
        var c := At(nodeToCommunity, neighborId);
        edgesToCommunity := edgesToCommunity[c := At(edgesToCommunity, c) + neighbors[neighborId]];
      }
    }
    assert ids[..|ids|] == ids;
    TallyIsComplete(edgesToCommunity, g, within, nodeToCommunity, x, neighbors, ids);
  }

  /** Reading the increment from the tally and the totals gives the increment
      of the move. */
  lemma DeltaQReadsMove<T(!new)>(resolution: real, g: KnowledgeGraph<T>, within: set<T>, part: map<T, int>, x: T,
                                 c: int,
                                 tally: map<int, int>, totals: map<int, int>, m2Sq: int)
    requires IsTally(tally, g, within, part, x) && TotalsAgree(totals, g, within, part) && g.TotalDegree(within) != 0
    requires m2Sq == g.TotalDegree(within) * g.TotalDegree(within) != 0
    ensures DeltaQ(resolution, At(tally, c), At(tally, At(part, x)), At(totals, At(part, x)), At(totals, c),
                   g.Degree(within, x), g.TotalDegree(within), m2Sq)
         == MoveDeltaQ(resolution, g, within, part, x, c)
  {
    hide DeltaQ, EdgesTo, CommunityDegree;
  }

  /** Either no target improves, or `best` is the best improving one. */
  ghost predicate IsBestOrNone<T(!new)>(best: int, resolution: real, g: KnowledgeGraph<T>, within: set<T>,
                                        part: map<T, int>, x: T) {
    if best == At(part, x) then forall c :: !Improves(resolution, g, within, part, x, c)
    else IsBest(resolution, g, within, part, x, best)
  }

  lemma ListedTargets(targets: seq<int>, tally: map<int, int>)
    requires IsListing(targets, tally.Keys)
    ensures forall i :: 0 <= i < |targets| ==> targets[i] in tally
  {
  }

  lemma BestOfAllTargets<T(!new)>(resolution: real, g: KnowledgeGraph<T>, within: set<T>, part: map<T, int>, x: T,
                                  tally: map<int, int>, targets: seq<int>, best: int, bestGain: real)
    requires IsTally(tally, g, within, part, x) && IsListing(targets, tally.Keys) && g.TotalDegree(within) != 0
    requires best == At(part, x) ==> bestGain == 0.0
    requires best != At(part, x) ==> best in tally && bestGain > 0.0
                                     && bestGain == MoveDeltaQ(resolution, g, within, part, x, best)
    requires forall j :: 0 <= j < |targets| && targets[j] != At(part, x) ==>
               MoveDeltaQ(resolution, g, within, part, x, targets[j]) <= bestGain
    ensures IsBestOrNone(best, resolution, g, within, part, x)
  {
    hide MoveDeltaQ, Neighbouring;
    forall d | IsTarget(g, within, part, x, d)
      ensures MoveDeltaQ(resolution, g, within, part, x, d) <= bestGain
    {
      assert d in tally && d in targets;
    }
  }

  /** The best community for `x`; its own when no move improves. Targets are
      visited in any order. */
  method BestCommunity<T(==,!new)>(ghost g: KnowledgeGraph<T>, ghost within: set<T>, resolution: real,
                                   nodeToCommunity: map<T, int>, x: T, nDegree: int,
                                   edgesToCommunity: map<int, int>, communityTotalDegree: map<int, int>,
                                   m2: int, m2Sq: int)
    returns (bestCommunity: int)
    requires m2 == g.TotalDegree(within) != 0 && m2Sq == m2 * m2 != 0 && nDegree == g.Degree(within, x)
    requires IsTally(edgesToCommunity, g, within, nodeToCommunity, x)
    requires TotalsAgree(communityTotalDegree, g, within, nodeToCommunity)
    ensures IsBestOrNone(bestCommunity, resolution, g, within, nodeToCommunity, x)
  {
    hide IsTally, TotalsAgree, IsBestOrNone, MoveDeltaQ, DeltaQ, KnowledgeGraph.Degree, KnowledgeGraph.TotalDegree;
    var currentCommunity := At(nodeToCommunity, x);
    var edgesToCurrent := At(edgesToCommunity, currentCommunity);
    var currentTotal := At(communityTotalDegree, currentCommunity);
    bestCommunity := currentCommunity;
    var bestGain := 0.0;
    var targets := ListOf(edgesToCommunity.Keys);
    ListedTargets(targets, edgesToCommunity);
    for i := 0 to |targets|
      invariant bestCommunity == currentCommunity ==> bestGain == 0.0
      invariant bestCommunity != currentCommunity ==>
                  && bestCommunity in edgesToCommunity && bestGain > 0.0
                  && bestGain == MoveDeltaQ(resolution, g, within, nodeToCommunity, x, bestCommunity)
      invariant forall j :: 0 <= j < i && targets[j] != currentCommunity ==>
                  MoveDeltaQ(resolution, g, within, nodeToCommunity, x, targets[j]) <= bestGain
    {
      var targetCommunity := targets[i];
      if targetCommunity != currentCommunity {
        var targetTotal := At(communityTotalDegree, targetCommunity);
        var deltaQ := DeltaQ(resolution, At(edgesToCommunity, targetCommunity), edgesToCurrent,
                             currentTotal, targetTotal, nDegree, m2, m2Sq);
        DeltaQReadsMove(resolution, g, within, nodeToCommunity, x, targetCommunity,
                        edgesToCommunity, communityTotalDegree, m2Sq);
        if deltaQ > bestGain {
          bestGain, bestCommunity := deltaQ, targetCommunity;
        }
      }
    }
    BestOfAllTargets(resolution, g, within, nodeToCommunity, x, edgesToCommunity, targets, bestCommunity, bestGain);
  }

  ghost predicate IsAdjacency<T(!new)>(adj: map<T, map<T, int>>, degrees: map<T, int>, g: KnowledgeGraph<T>,
                                       within: set<T>) {
    forall u :: u in adj ==> u in degrees && IsRow(adj[u], g, within, u) && degrees[u] == g.Degree(within, u)
  }

  lemma NodeRead<T(!new)>(adj: map<T, map<T, int>>, degrees: map<T, int>, g: KnowledgeGraph<T>, within: set<T>, x: T)
    requires IsAdjacency(adj, degrees, g, within) && x in adj
    ensures x in degrees && degrees[x] == g.Degree(within, x) && IsRow(adj[x], g, within, x)
  {
  }

  lemma EmptyAdjacency<T(!new)>(g: KnowledgeGraph<T>, within: set<T>)
    ensures IsAdjacency(map[], map[], g, within)
  {
  }

  lemma AdjacencyStep<T(!new)>(adj: map<T, map<T, int>>, degrees: map<T, int>, g: KnowledgeGraph<T>, within: set<T>,
                               u: T, row: map<T, int>, degree: int)
    requires IsAdjacency(adj, degrees, g, within) && IsRow(row, g, within, u) && degree == g.Degree(within, u)
    ensures IsAdjacency(adj[u := row], degrees[u := degree], g, within)
    ensures degree == g.Degrees(within)(u)
  {
  }

  method ReadAdjacency<T(==,!new)>(g: KnowledgeGraph<T>, nodes: seq<T>, filter: Option<set<T>>, ghost within: set<T>)
    returns (adj: map<T, map<T, int>>, degrees: map<T, int>, totalWeight: int)
    requires g.Valid() && IsListing(nodes, within)
    requires within == if filter.Some? then filter.value else g.nodes
    ensures adj.Keys == degrees.Keys == within && IsAdjacency(adj, degrees, g, within)
    ensures totalWeight == g.TotalDegree(within)
  {
    adj, degrees, totalWeight := map[], map[], 0;
    hide IsAdjacency, KnowledgeGraph.TotalDegree;
    assert IsAdjacency(adj, degrees, g, within) by { EmptyAdjacency(g, within); }
    for i := 0 to |nodes|
      invariant forall u :: u in adj <==> u in nodes[..i]
      invariant forall u :: u in degrees <==> u in nodes[..i]
      invariant IsAdjacency(adj, degrees, g, within)
      invariant totalWeight == ListSum(nodes[..i], g.Degrees(within))
    {
      var neighborWeights, degree := ReadRow(g, within, filter, nodes[i]);
      AdjacencyStep(adj, degrees, g, within, nodes[i], neighborWeights, degree);
      adj := adj[nodes[i] := neighborWeights];
      degrees := degrees[nodes[i] := degree];
      totalWeight := totalWeight + degree;
      assert nodes[..i + 1][..i] == nodes[..i];
    }
    assert nodes[..|nodes|] == nodes;
    ListingSum(nodes, within, g.Degrees(within));
    TotalDegreeUnfolds(g, within);
  }

  /** Puts every node into a community of its own. */
  method Separate<T(==,!new)>(nodes: seq<T>, degrees: map<T, int>)
    returns (nodeToComm: map<T, int>, commTotalDegree: map<int, int>)
    requires IsListing(nodes, degrees.Keys)
    ensures nodeToComm.Keys == degrees.Keys && IsSingletons(nodeToComm, nodes)
    ensures forall j :: j in commTotalDegree <==> 0 <= j < |nodes|
    ensures forall j :: 0 <= j < |nodes| ==> commTotalDegree[j] == degrees[nodes[j]]
  {
    nodeToComm, commTotalDegree := map[], map[];
    for i := 0 to |nodes|
      invariant nodeToComm.Keys == set u | u in nodes[..i]
      invariant forall j :: 0 <= j < i ==> nodes[j] in nodeToComm && nodeToComm[nodes[j]] == j
      invariant forall j :: j in commTotalDegree <==> 0 <= j < i
      invariant forall j :: 0 <= j < i ==> commTotalDegree[j] == degrees[nodes[j]]
    {
      nodeToComm := nodeToComm[nodes[i] := i];
      commTotalDegree := commTotalDegree[i := degrees[nodes[i]]];
    }
  }

  lemma NonZeroSquare(m: int)
    requires m != 0
    ensures m * m != 0
  {
  }

  lemma SingletonDegrees<T(!new)>(g: KnowledgeGraph<T>, within: set<T>, nodes: seq<T>, part: map<T, int>,
                                  totals: map<int, int>)
    requires IsListing(nodes, within)
    requires part.Keys == within && IsSingletons(part, nodes)
    requires forall j :: j in totals <==> 0 <= j < |nodes|
    requires forall j :: 0 <= j < |nodes| ==> totals[j] == g.Degree(within, nodes[j])
    ensures TotalsAgree(totals, g, within, part)
  {
    forall c ensures At(totals, c) == CommunityDegree(g, within, part, c) {
      var f := MemberDegree(g, within, part, c);
      forall u | u in within && !(0 <= c < |nodes| && u == nodes[c]) ensures f(u) == 0 {
        assert u in nodes;
        var j :| 0 <= j < |nodes| && nodes[j] == u;
      }
      if 0 <= c < |nodes| {
        assert nodes[c] in nodes;
        SumSingle(within, f, nodes[c]);
      } else {
        SumZero(within, f);
      }
    }
  }

  /** The incremental update of the two totals is the from-scratch total of the
      new partition, for every community. */
  lemma MoveShiftsTotals<T(!new)>(g: KnowledgeGraph<T>, within: set<T>, part: map<T, int>, x: T, to: int, c: int)
    requires x in within && x in part && to != part[x]
    ensures CommunityDegree(g, within, part[x := to], c)
         == CommunityDegree(g, within, part, c)
          + (if c == to then g.Degree(within, x) else if c == part[x] then -g.Degree(within, x) else 0)
  {
    var f, f' := MemberDegree(g, within, part, c), MemberDegree(g, within, part[x := to], c);
    SumPick(within, f, x);
    SumPick(within, f', x);
    SumExt(within - {x}, f, f');
  }

  lemma TotalsAfterMove<T(!new)>(g: KnowledgeGraph<T>, within: set<T>, part: map<T, int>, x: T, to: int,
                                 totals: map<int, int>, k: int)
    requires x in within && x in part && to != part[x] && k == g.Degree(within, x)
    requires TotalsAgree(totals, g, within, part)
    ensures TotalsAgree(Transfer(totals, part[x], to, k), g, within, part[x := to])
  {
    hide CommunityDegree;
    forall c ensures At(Transfer(totals, part[x], to, k), c) == CommunityDegree(g, within, part[x := to], c) {
      MoveShiftsTotals(g, within, part, x, to, c);
    }
  }

  /** The engine's computation context. */
  class LouvainContext<T(==,!new)> {
    var adjacency: map<T, map<T, int>>
    var nodeDegree: map<T, int>
    var communityTotalDegree: map<int, int>
    var nodeToCommunity: map<T, int>
    var m2: int
    var m2Sq: int

    /** The topology part, fixed once built. */
    ghost predicate Topology(g: KnowledgeGraph<T>, within: set<T>)
      reads this
    {
      && adjacency.Keys == nodeDegree.Keys == within && IsAdjacency(adjacency, nodeDegree, g, within)
      && m2 == g.TotalDegree(within) && m2Sq == m2 * m2
    }

    /** The incremental totals agree with the partition at all times. */
    ghost predicate Valid(g: KnowledgeGraph<T>, within: set<T>)
      reads this
    {
      && Topology(g, within)
      && nodeToCommunity.Keys == within
      && TotalsAgree(communityTotalDegree, g, within, nodeToCommunity)
    }

    constructor (g: KnowledgeGraph<T>, nodes: seq<T>, filter: Option<set<T>>, ghost within: set<T>)
      requires g.Valid() && IsListing(nodes, within)
      requires within == if filter.Some? then filter.value else g.nodes
      ensures Valid(g, within) && IsSingletons(nodeToCommunity, nodes)
      ensures nodeToCommunity.Keys == within && m2 == g.TotalDegree(within)
    {
      var adj, degrees, totalWeight := ReadAdjacency(g, nodes, filter, within);
      var nodeToComm, commTotalDegree := Separate(nodes, degrees);
      SingletonDegrees(g, within, nodes, nodeToComm, commTotalDegree);
      adjacency, nodeDegree, communityTotalDegree, nodeToCommunity := adj, degrees, commTotalDegree, nodeToComm;
      m2, m2Sq := totalWeight, totalWeight * totalWeight;
    }

    /** Moves `x` to its best community, if that is a different one, and keeps
        the totals in step. */
    method Visit(ghost g: KnowledgeGraph<T>, ghost within: set<T>, resolution: real, x: T) returns (moved: bool)
      requires Valid(g, within) && x in within && m2 != 0
      modifies this`communityTotalDegree, this`nodeToCommunity
      ensures Valid(g, within) && nodeToCommunity.Keys == within
      ensures IsVisit(resolution, g, within, old(nodeToCommunity), x, nodeToCommunity)
      ensures moved <==> nodeToCommunity != old(nodeToCommunity)
    {
      hide IsBest, Improves, TotalsAgree, IsAdjacency;
      NodeRead(adjacency, nodeDegree, g, within, x);
      NonZeroSquare(m2);
      var currentCommunity, nDegree := nodeToCommunity[x], nodeDegree[x];
      var edgesToCommunity := EdgesToCommunities(g, within, nodeToCommunity, x, adjacency[x]);
      var bestCommunity := BestCommunity(g, within, resolution, nodeToCommunity, x, nDegree,
                                         edgesToCommunity, communityTotalDegree, m2, m2Sq);
      moved := bestCommunity != currentCommunity;
      if moved {
        TotalsAfterMove(g, within, nodeToCommunity, x, bestCommunity, communityTotalDegree, nDegree);
        communityTotalDegree := Transfer(communityTotalDegree, currentCommunity, bestCommunity, nDegree);
        nodeToCommunity := nodeToCommunity[x := bestCommunity];
        assert nodeToCommunity[x] != old(nodeToCommunity)[x];
      }
    }

    /** One pass over the nodes; `steps` are the partitions after each visit. */
    method Sweep(ghost g: KnowledgeGraph<T>, ghost within: set<T>, nodes: seq<T>, resolution: real)
      returns (improved: bool, ghost steps: seq<map<T, int>>)
      requires Valid(g, within) && IsListing(nodes, within) && m2 != 0
      modifies this`communityTotalDegree, this`nodeToCommunity
      ensures Valid(g, within) && nodeToCommunity.Keys == within
      ensures IsSweep(resolution, g, within, nodes, steps) && |steps| == |nodes| + 1
      ensures steps[0] == old(nodeToCommunity) && steps[|nodes|] == nodeToCommunity
      ensures improved <==> Improved(steps)
    {
      assert nodeToCommunity.Keys == within;
      hide Valid, IsVisit, IsPartialSweep, Improved;
      improved, steps := false, [nodeToCommunity];
      SweepStarts(resolution, g, within, nodes, nodeToCommunity);
      for i := 0 to |nodes|
        invariant Valid(g, within) && nodeToCommunity.Keys == within
        invariant |steps| == i + 1 && IsPartialSweep(resolution, g, within, nodes, steps)
        invariant steps[0] == old(nodeToCommunity) && steps[i] == nodeToCommunity
        invariant improved <==> Improved(steps)
      {
        var moved := Visit(g, within, resolution, nodes[i]);
        SweepGoesOn(resolution, g, within, nodes, steps, nodeToCommunity);
        steps := steps + [nodeToCommunity];
        if moved {
          improved := true;
        }
      }
    }

    /** Sweeps until one changes nothing or the limit is reached. With no edge
        weight at all there is nothing to do. */
    method Optimize(ghost g: KnowledgeGraph<T>, ghost within: set<T>, nodes: seq<T>, resolution: real, maxIter: int)
      returns (ghost sweeps: seq<seq<map<T, int>>>)
      requires Valid(g, within) && IsListing(nodes, within)
      modifies this`communityTotalDegree, this`nodeToCommunity
      ensures Valid(g, within) && nodeToCommunity.Keys == within
      ensures IsOptimization(resolution, maxIter, g, within, nodes, old(nodeToCommunity), sweeps)
      ensures nodeToCommunity == EndOf(old(nodeToCommunity), sweeps)
    {
      sweeps := [];
      ghost var start := nodeToCommunity;
      assert m2 == g.TotalDegree(within) && nodeToCommunity.Keys == within;
      hide *;
      if m2 == 0 {
        NothingOptimized(resolution, maxIter, g, within, nodes, start);
        return;
      }
      SweepingStarts(resolution, g, within, nodes, start);
      var improved := true;
      var iteration := 0;
      while improved && iteration < maxIter
        invariant 0 <= iteration == |sweeps| && (iteration <= maxIter || iteration == 0)
        invariant Valid(g, within) && nodeToCommunity.Keys == within
        invariant IsSweepingTo(resolution, g, within, nodes, start, sweeps, nodeToCommunity, improved)
        decreases maxIter - iteration
      {
        iteration := iteration + 1;
        ghost var before, steps := nodeToCommunity, [];
        improved, steps := Sweep(g, within, nodes, resolution);
        SweepingGoesOn(resolution, g, within, nodes, start, sweeps, before, steps);
        sweeps := sweeps + [steps];
      }
      SweepingEnds(resolution, maxIter, g, within, nodes, start, sweeps, nodeToCommunity, improved);
    }
  }

  /** Every node alone in a community numbered by its position. */
  method FallbackIsolated<T(==,!new)>(nodes: seq<T>, ghost part: map<T, int>) returns (res: map<int, seq<T>>)
    requires IsSingletons(part, nodes)
    ensures IsGrouping(res, part)
  {
    res := map[];
    for i := 0 to |nodes|
      invariant forall c :: c in res <==> 0 <= c < i
      invariant forall c :: c in res ==> res[c] == [nodes[c]]
    {
      res := res[i := [nodes[i]]];
    }
    SingletonsAreSeparate(part, nodes);
    forall u | u in part ensures part[u] in res {
      var i :| 0 <= i < |nodes| && nodes[i] == u;
    }
    forall c | c in res ensures IsListing(res[c], Members(part, c)) {
      assert nodes[c] in part && part[nodes[c]] == c;
    }
  }

  /** The general-purpose engine. */
  class LouvainEngine<T(==,!new)> {
    const resolution: real
    const maxIterations: int

    constructor (resolution: real, maxIterations: int)
      ensures this.resolution == (if resolution <= 0.0 then 1.0 else resolution)
      ensures this.maxIterations == (if maxIterations <= 0 then 20 else maxIterations)
    {
      this.resolution := if resolution <= 0.0 then 1.0 else resolution;
      this.maxIterations := if maxIterations <= 0 then 20 else maxIterations;
    }

    /** Detects communities on `subset`, or on all nodes when it is empty. */
    method Execute(g: KnowledgeGraph<T>, subset: seq<T>, filter: Option<set<T>>)
      returns (raw: map<int, seq<T>>)
      requires g.Valid()
      requires if subset == [] then filter == None else filter.Some? && IsListing(subset, filter.value)
      ensures IsDetected(raw, resolution, maxIterations, g, if subset == [] then g.nodes else filter.value)
    {
      var nodes := subset;
      if |nodes| == 0 {
        nodes := g.GetNodes();
      }
      raw := Run(g, nodes, filter, if subset == [] then g.nodes else filter.value);
    }

    /** Execute once the nodes are known. */
    method Run(g: KnowledgeGraph<T>, nodes: seq<T>, filter: Option<set<T>>, ghost within: set<T>)
      returns (raw: map<int, seq<T>>)
      requires g.Valid() && IsListing(nodes, within)
      requires within == if filter.Some? then filter.value else g.nodes
      ensures IsDetected(raw, resolution, maxIterations, g, within)
    {
      hide *;
      var c := new LouvainContext(g, nodes, filter, within);
      ghost var start := c.nodeToCommunity;
      if c.m2 == 0 {
        raw := FallbackIsolated(nodes, start);
        NothingOptimized(resolution, maxIterations, g, within, nodes, start);
        Detected(raw, resolution, maxIterations, g, within, Detection(nodes, start, []), start);
        return;
      }
      ghost var sweeps := c.Optimize(g, within, nodes, resolution, maxIterations);
      raw := GroupByCommunity(c.nodeToCommunity);
      Detected(raw, resolution, maxIterations, g, within, Detection(nodes, start, sweeps), c.nodeToCommunity);
    }
  }
}
