/** Modularity: computed from scratch as the graph layer does, and the gain
    formula the optimizer uses. */
module Modularity {
  import opened GoMaps
  import opened Sums
  import opened KnowledgeGraphs
  import opened Partitions
  import opened RealSums

  /** Weight beyond expectation, scaled by the total degree squared so that
      every entry is an integer. */
  ghost function Surplus<T(!new)>(g: KnowledgeGraph<T>, within: set<T>): Matrix<T> {
    (u: T, v: T) => g.TotalDegree(within) * g.LinkWeight(u, v) - g.Degree(within, u) * g.Degree(within, v)
  }

  /** Modularity of a partition of `within`, times the total degree squared. */
  ghost function ScaledModularity<T(!new)>(g: KnowledgeGraph<T>, within: set<T>, part: map<T, int>): int {
    Potential(Surplus(g, within), part, within)
  }

  ghost function MemberDegree<T(!new)>(g: KnowledgeGraph<T>, within: set<T>, part: map<T, int>, c: int): T -> int {
    (u: T) => if At(part, u) == c then g.Degree(within, u) else 0
  }

  /** The degrees of the members of community `c`. */
  ghost function CommunityDegree<T(!new)>(g: KnowledgeGraph<T>, within: set<T>, part: map<T, int>, c: int): int {
    Sum(within, MemberDegree(g, within, part, c))
  }

  ghost function LinkMatrix<T(!new)>(g: KnowledgeGraph<T>): Matrix<T> {
    (u: T, v: T) => g.LinkWeight(u, v)
  }

  /** The weight between `x` and the other members of community `c`. */
  ghost function EdgesTo<T(!new)>(g: KnowledgeGraph<T>, within: set<T>, part: map<T, int>, x: T, c: int): int {
    Pull(LinkMatrix(g), part, within, x, c)
  }

  /** The gain of moving `x` to community `c`, in the optimizer's integers. */
  ghost function Gain<T(!new)>(g: KnowledgeGraph<T>, within: set<T>, part: map<T, int>, x: T, c: int): int {
    var here := At(part, x);
    var k := g.Degree(within, x);
    g.TotalDegree(within) * (EdgesTo(g, within, part, x, c) - EdgesTo(g, within, part, x, here))
    + (CommunityDegree(g, within, part, here) - CommunityDegree(g, within, part, c) - k) * k
  }

  lemma SurplusSymmetric<T(!new)>(g: KnowledgeGraph<T>, within: set<T>, s: set<T>)
    ensures Symmetric(Surplus(g, within), s)
  {
    forall u, v | u in s && v in s ensures Surplus(g, within)(u, v) == Surplus(g, within)(v, u) {
      LinkWeightSymmetric(g, u, v);
    }
  }

  ghost function OtherMemberDegree<T(!new)>(g: KnowledgeGraph<T>, within: set<T>, part: map<T, int>, x: T,
                                            c: int): T -> int {
    (v: T) => if v != x && At(part, v) == c then g.Degree(within, v) else 0
  }

  lemma OtherMembers<T(!new)>(g: KnowledgeGraph<T>, within: set<T>, part: map<T, int>, x: T, c: int)
    requires x in within
    ensures Sum(within, OtherMemberDegree(g, within, part, x, c))
         == CommunityDegree(g, within, part, c) - (if At(part, x) == c then g.Degree(within, x) else 0)
  {
    var members, others := MemberDegree(g, within, part, c), OtherMemberDegree(g, within, part, x, c);
    SumPick(within, members, x);
    SumPick(within, others, x);
    SumExt(within - {x}, members, others);
  }

  lemma ZeroTimes(k: int)
    ensures k * 0 == 0
  {
  }

  /** Separates the surplus pull into an edge part and a degree part. */
  lemma PullOfSurplus<T(!new)>(g: KnowledgeGraph<T>, within: set<T>, part: map<T, int>, x: T, c: int)
    ensures Pull(Surplus(g, within), part, within, x, c)
         == g.TotalDegree(within) * EdgesTo(g, within, part, x, c)
          - g.Degree(within, x) * Sum(within, OtherMemberDegree(g, within, part, x, c))
  {
    forall v | v in within
      ensures Towards(Surplus(g, within), part, x, c)(v)
           == g.TotalDegree(within) * Towards(LinkMatrix(g), part, x, c)(v)
            - g.Degree(within, x) * OtherMemberDegree(g, within, part, x, c)(v)
    {
      if v == x || At(part, v) != c {
        ZeroTimes(g.TotalDegree(within));
        ZeroTimes(g.Degree(within, x));
      }
    }
    SumCombine(within, g.TotalDegree(within), Towards(LinkMatrix(g), part, x, c),
               g.Degree(within, x), OtherMemberDegree(g, within, part, x, c),
               Towards(Surplus(g, within), part, x, c));
  }

  lemma Regroup(m2: int, eTo: int, eHere: int, k: int, dTo: int, dHere: int)
    ensures m2 * eTo - k * dTo - (m2 * eHere - k * (dHere - k))
         == m2 * (eTo - eHere) + (dHere - dTo - k) * k
  {
  }

  /** A move changes the scaled modularity by exactly twice its gain. */
  lemma MoveChangesModularity<T(!new)>(g: KnowledgeGraph<T>, within: set<T>, part: map<T, int>, x: T, c: int)
    requires x in within && c != At(part, x)
    ensures ScaledModularity(g, within, part[x := c]) - ScaledModularity(g, within, part)
         == 2 * Gain(g, within, part, x, c)
  {
    hide Surplus, Potential, Pull, EdgesTo, CommunityDegree, Sum;
    SurplusSymmetric(g, within, within);
    MoveChangesPotential(Surplus(g, within), part, within, x, c);
    PullOfSurplus(g, within, part, x, c);
    PullOfSurplus(g, within, part, x, At(part, x));
    OtherMembers(g, within, part, x, c);
    OtherMembers(g, within, part, x, At(part, x));
    var here, k := At(part, x), g.Degree(within, x);
    Regroup(g.TotalDegree(within), EdgesTo(g, within, part, x, c), EdgesTo(g, within, part, x, here), k,
            CommunityDegree(g, within, part, c), CommunityDegree(g, within, part, here));
  }

  lemma SquarePositive(m: int)
    requires m != 0
    ensures m * m > 0
  {
  }

  /** The optimizer's increment, on the quantities it reads. */
  function DeltaQ(resolution: real, edgesToTarget: int, edgesToCurrent: int,
                  currentTotal: int, targetTotal: int, nDegree: int, m2: int, m2Sq: int): real
    requires m2 != 0 && m2Sq != 0
  {
    resolution * ((edgesToTarget - edgesToCurrent) as real / m2 as real
                  + ((currentTotal - targetTotal - nDegree) * nDegree) as real / m2Sq as real)
  }

  /** The increment of moving `x` to `c` in a given partition. */
  ghost function MoveDeltaQ<T(!new)>(resolution: real, g: KnowledgeGraph<T>, within: set<T>,
                                     part: map<T, int>, x: T, c: int): real
    requires g.TotalDegree(within) != 0
  {
    var here, m2 := At(part, x), g.TotalDegree(within);
    SquarePositive(m2);
    DeltaQ(resolution, EdgesTo(g, within, part, x, c), EdgesTo(g, within, part, x, here),
           CommunityDegree(g, within, part, here), CommunityDegree(g, within, part, c),
           g.Degree(within, x), m2, m2 * m2)
  }

  lemma CommonDenominator(r: real, a: real, b: real, m: real, d: real)
    requires m != 0.0 && d > 0.0 && d == m * m
    ensures r * (a / m + b / d) == r * (m * a + b) / d
  {
  }

  /** The increment is the integer gain on a fixed positive scale, so comparing
      increments is comparing gains. */
  lemma DeltaQIsScaledGain(resolution: real, edgesToTarget: int, edgesToCurrent: int,
                           currentTotal: int, targetTotal: int, nDegree: int, m2: int)
    requires m2 != 0
    ensures m2 * m2 > 0
    ensures DeltaQ(resolution, edgesToTarget, edgesToCurrent, currentTotal, targetTotal, nDegree, m2, m2 * m2)
         == resolution * (m2 * (edgesToTarget - edgesToCurrent)
                          + (currentTotal - targetTotal - nDegree) * nDegree) as real / (m2 * m2) as real
  {
    var a, b := edgesToTarget - edgesToCurrent, (currentTotal - targetTotal - nDegree) * nDegree;
    SquarePositive(m2);
    assert (m2 * m2) as real == m2 as real * m2 as real;
    CommonDenominator(resolution, a as real, b as real, m2 as real, (m2 * m2) as real);
    assert (m2 * a + b) as real == m2 as real * a as real + b as real;
  }

  /** Modularity, as a fraction of the total degree squared. */
  ghost function ModularityOf<T(!new)>(g: KnowledgeGraph<T>, within: set<T>, part: map<T, int>): real
    requires g.TotalDegree(within) != 0
  {
    var m2 := g.TotalDegree(within);
    SquarePositive(m2);
    ScaledModularity(g, within, part) as real / (m2 * m2) as real
  }

  lemma MoveDeltaQIsScaledGain<T(!new)>(resolution: real, g: KnowledgeGraph<T>, within: set<T>,
                                        part: map<T, int>, x: T, c: int)
    requires g.TotalDegree(within) != 0
    ensures var m2 := g.TotalDegree(within);
            m2 * m2 > 0 && MoveDeltaQ(resolution, g, within, part, x, c)
                           == resolution * Gain(g, within, part, x, c) as real / (m2 * m2) as real
  {
    hide DeltaQ, EdgesTo, CommunityDegree, KnowledgeGraph.Degree, KnowledgeGraph.TotalDegree;
    var here := At(part, x);
    DeltaQIsScaledGain(resolution, EdgesTo(g, within, part, x, c), EdgesTo(g, within, part, x, here),
                       CommunityDegree(g, within, part, here), CommunityDegree(g, within, part, c),
                       g.Degree(within, x), g.TotalDegree(within));
  }

  lemma HalfChange(after: real, before: real, gain: real, r: real, d: real, deltaQ: real)
    requires d > 0.0 && r != 0.0 && after - before == 2.0 * gain && deltaQ == r * gain / d
    ensures after / d - before / d == 2.0 * deltaQ / r
  {
  }

  /** The increment the optimizer computes is, up to the resolution, half the
      true change of the modularity. */
  lemma DeltaQIsHalfTheChange<T(!new)>(resolution: real, g: KnowledgeGraph<T>, within: set<T>,
                                       part: map<T, int>, x: T, c: int)
    requires g.TotalDegree(within) != 0 && resolution != 0.0
    requires x in within && c != At(part, x)
    ensures ModularityOf(g, within, part[x := c]) - ModularityOf(g, within, part)
         == 2.0 * MoveDeltaQ(resolution, g, within, part, x, c) / resolution
  {
    hide Gain, MoveDeltaQ, ScaledModularity;
    var before, after := ScaledModularity(g, within, part), ScaledModularity(g, within, part[x := c]);
    var gain, m2 := Gain(g, within, part, x, c), g.TotalDegree(within);
    assert after - before == 2 * gain by { MoveChangesModularity(g, within, part, x, c); }
    MoveDeltaQIsScaledGain(resolution, g, within, part, x, c);
    SquarePositive(m2);
    assert after as real - before as real == 2.0 * gain as real;
    HalfChange(after as real, before as real, gain as real, resolution, (m2 * m2) as real,
               MoveDeltaQ(resolution, g, within, part, x, c));
    assert ModularityOf(g, within, part) == before as real / (m2 * m2) as real;
    assert ModularityOf(g, within, part[x := c]) == after as real / (m2 * m2) as real;
  }

  ghost predicate NonNegativeWeights<T(!new)>(g: KnowledgeGraph<T>) {
    forall e :: e in g.edges ==> e.weight >= 0
  }

  lemma DegreesNonNegative<T(!new)>(g: KnowledgeGraph<T>, within: set<T>)
    requires NonNegativeWeights(g)
    ensures forall u, v :: g.LinkWeight(u, v) >= 0
    ensures forall u :: g.Degree(within, u) >= 0
    ensures g.TotalDegree(within) >= 0
  {
    forall u, v ensures g.LinkWeight(u, v) >= 0 {
      SumNonNegative(g.edges, LinkShare(u, v));
    }
    forall u ensures g.Degree(within, u) >= 0 {
      SumNonNegative(within, g.LinksFrom(u));
    }
    SumNonNegative(within, g.Degrees(within));
  }

  lemma TotalDegreeUnfolds<T(!new)>(g: KnowledgeGraph<T>, within: set<T>)
    ensures g.TotalDegree(within) == Sum(within, g.Degrees(within))
  {
  }

  lemma MinusTimes(a: int, b: int)
    ensures -a * b == -(a * b)
  {
  }

  lemma Monotone(a: int, b: int)
    requires a >= 0 && b >= 0
    ensures a * b >= 0
  {
  }

  lemma EntryBounded<T(!new)>(g: KnowledgeGraph<T>, within: set<T>, part: map<T, int>, u: T, v: T)
    requires NonNegativeWeights(g)
    ensures var m2, k := g.TotalDegree(within), g.Degree(within, u);
            Times(-k, g.Degrees(within))(v) <= PairShare(Surplus(g, within), part, u)(v) <= Times(m2, g.LinksFrom(u))(v)
  {
    var m2, k, l := g.TotalDegree(within), g.Degree(within, u), g.Degree(within, v);
    var w := g.LinkWeight(u, v);
    assert m2 >= 0 && k >= 0 && l >= 0 && w >= 0 by { DegreesNonNegative(g, within); }
    Monotone(m2, w);
    Monotone(k, l);
    MinusTimes(k, l);
    assert PairShare(Surplus(g, within), part, u)(v) in {0, m2 * w - k * l};
  }

  lemma RowBounded<T(!new)>(g: KnowledgeGraph<T>, within: set<T>, part: map<T, int>, u: T)
    requires NonNegativeWeights(g)
    ensures var m2, d := g.TotalDegree(within), g.Degrees(within);
            Times(-m2, d)(u) <= RowTotal(Surplus(g, within), part, within)(u) <= Times(m2, d)(u)
  {
    var m2, k := g.TotalDegree(within), g.Degree(within, u);
    var row := PairShare(Surplus(g, within), part, u);
    assert RowTotal(Surplus(g, within), part, within)(u) == Sum(within, row);
    assert Times(m2, g.Degrees(within))(u) == m2 * k && Times(-m2, g.Degrees(within))(u) == -m2 * k;
    assert Sum(within, g.LinksFrom(u)) == k && Sum(within, g.Degrees(within)) == m2;
    hide *;
    forall v | v in within
      ensures Times(-k, g.Degrees(within))(v) <= row(v) <= Times(m2, g.LinksFrom(u))(v)
    {
      EntryBounded(g, within, part, u, v);
    }
    SumLeq(within, row, Times(m2, g.LinksFrom(u)));
    SumLeq(within, Times(-k, g.Degrees(within)), row);
    SumTimes(within, m2, g.LinksFrom(u));
    SumTimes(within, -k, g.Degrees(within));
    MinusTimes(k, m2);
    MinusTimes(m2, k);
  }

  /** With non-negative weights the scaled modularity never leaves
      [-m2 * m2, m2 * m2]. */
  lemma ScaledModularityBounded<T(!new)>(g: KnowledgeGraph<T>, within: set<T>, part: map<T, int>)
    requires NonNegativeWeights(g)
    ensures var m2 := g.TotalDegree(within); -(m2 * m2) <= ScaledModularity(g, within, part) <= m2 * m2
  {
    var m2 := g.TotalDegree(within);
    var rows := RowTotal(Surplus(g, within), part, within);
    var high := Times(m2, g.Degrees(within));
    var low := Times(-m2, g.Degrees(within));
    assert ScaledModularity(g, within, part) == Sum(within, rows);
    hide *;
    forall u | u in within ensures low(u) <= rows(u) <= high(u) {
      RowBounded(g, within, part, u);
    }
    SumLeq(within, rows, high);
    SumLeq(within, low, rows);
    SumTimes(within, m2, g.Degrees(within));
    SumTimes(within, -m2, g.Degrees(within));
    assert m2 == Sum(within, g.Degrees(within)) by { TotalDegreeUnfolds(g, within); }
    MinusTimes(m2, m2);
  }

  lemma RowOfOneCommunity<T(!new)>(g: KnowledgeGraph<T>, within: set<T>, part: map<T, int>, s: set<T>, u: T)
    requires forall v :: v in s ==> At(part, u) == At(part, v)
    ensures RowTotal(Surplus(g, within), part, s)(u)
         == g.TotalDegree(within) * g.Degrees(s)(u) - Sum(s, g.Degrees(within)) * g.Degrees(within)(u)
  {
    var row := PairShare(Surplus(g, within), part, u);
    var m2, k := g.TotalDegree(within), g.Degree(within, u);
    assert RowTotal(Surplus(g, within), part, s)(u) == Sum(s, row);
    assert g.Degrees(s)(u) == Sum(s, g.LinksFrom(u)) && g.Degrees(within)(u) == k;
    forall v | v in s ensures row(v) == m2 * g.LinksFrom(u)(v) - k * g.Degrees(within)(v) {
    }
    hide *;
    SumCombine(s, m2, g.LinksFrom(u), k, g.Degrees(within), row);
  }

  /** A community contributes its inner weight and the square of its degrees. */
  lemma PotentialOfOneCommunity<T(!new)>(g: KnowledgeGraph<T>, within: set<T>, part: map<T, int>, s: set<T>)
    requires forall u, v :: u in s && v in s ==> At(part, u) == At(part, v)
    ensures var m2, d := g.TotalDegree(within), Sum(s, g.Degrees(within));
            Potential(Surplus(g, within), part, s) == m2 * g.TotalDegree(s) - d * d
  {
    var m2, d := g.TotalDegree(within), Sum(s, g.Degrees(within));
    var rows := RowTotal(Surplus(g, within), part, s);
    assert Potential(Surplus(g, within), part, s) == Sum(s, rows) && g.TotalDegree(s) == Sum(s, g.Degrees(s));
    hide *;
    forall u | u in s ensures rows(u) == m2 * g.Degrees(s)(u) - d * g.Degrees(within)(u) {
      RowOfOneCommunity(g, within, part, s, u);
    }
    SumCombine(s, m2, g.Degrees(s), d, g.Degrees(within), rows);
  }

  ghost function Assigned<T(!new)>(g: KnowledgeGraph<T>, community: map<T, int>): set<T> {
    set u | u in g.nodes && At(community, u) != -1
  }

  /** The contribution of one community, as the graph layer computes it. */
  function CommunityTerm(edgesInsideTwice: int, degreesSum: int, totalEdgeWeight: int): real
    requires totalEdgeWeight != 0
  {
    var share := degreesSum as real / (2 * totalEdgeWeight) as real;
    edgesInsideTwice as real / 2.0 / totalEdgeWeight as real - share * share
  }

  lemma TermOverSquare(w: real, d: real, m: real, q: real)
    requires m != 0.0 && q > 0.0 && q == m * m
    ensures w / m - (d / m) * (d / m) == (m * w - d * d) / q
  {
  }

  lemma CommunityTermScaled(w: int, d: int, total: int)
    requires total != 0
    ensures var m2 := 2 * total;
            m2 * m2 > 0 && CommunityTerm(w, d, total) == (m2 * w - d * d) as real / (m2 * m2) as real
  {
    var m2 := 2 * total;
    SquarePositive(m2);
    assert (m2 * m2) as real == m2 as real * m2 as real;
    assert w as real / 2.0 / total as real == w as real / m2 as real;
    assert (m2 * w - d * d) as real == m2 as real * w as real - d as real * d as real;
    TermOverSquare(w as real, d as real, m2 as real, (m2 * m2) as real);
  }

  lemma AddFractions(x: int, y: int, d: int)
    requires d > 0
    ensures x as real / d as real + y as real / d as real == (x + y) as real / d as real
  {
  }

  ghost function AssignedPart<T(!new)>(community: map<T, int>, nodes: seq<T>): map<T, int> {
    map u | u in nodes && u in community && community[u] != -1 :: community[u]
  }

  lemma AssignedMembers<T(!new)>(g: KnowledgeGraph<T>, community: map<T, int>, nodes: seq<T>,
                                 communities: map<int, seq<T>>)
    requires community.Keys == g.nodes && IsListing(nodes, g.nodes)
    requires IsGrouping(communities, AssignedPart(community, nodes)) && -1 !in communities
    ensures forall u :: u in Assigned(g, community) ==> community[u] in communities
    ensures forall c :: c in communities ==> IsListing(communities[c], Members(community, c))
  {
    var part := AssignedPart(community, nodes);
    forall u | u in Assigned(g, community) ensures community[u] in communities {
      assert u in nodes && u in part;
    }
    forall c | c in communities ensures Members(part, c) == Members(community, c) {
    }
  }

  method GroupAssigned<T(==,!new)>(g: KnowledgeGraph<T>, community: map<T, int>) returns (communities: map<int, seq<T>>)
    requires community.Keys == g.nodes
    ensures forall u :: u in Assigned(g, community) ==> community[u] in communities
    ensures forall c :: c in communities ==> c != -1 && IsListing(communities[c], Members(community, c))
  {
    var nodes := g.GetNodes();
    communities := map[];
    ghost var part: map<T, int> := map[];
    for i := 0 to |nodes|
      invariant part == AssignedPart(community, nodes[..i])
      invariant IsGrouping(communities, part) && -1 !in communities
    {
      var u := nodes[i];
      assert nodes[..i + 1] == nodes[..i] + [u];
      if community[u] != -1 {
        AppendKeepsGrouping(communities, part, u, community[u]);
        communities := Append(communities, community[u], u);
        part := part[u := community[u]];
      }
      assert part == AssignedPart(community, nodes[..i + 1]);
    }
    assert nodes[..|nodes|] == nodes;
    AssignedMembers(g, community, nodes, communities);
  }

  method NodeTotals<T(==,!new)>(g: KnowledgeGraph<T>, u: T, nodeSet: set<T>) returns (inside: int, degree: int)
    requires g.Valid()
    ensures inside == g.Degree(nodeSet, u) && degree == g.Degree(g.nodes, u)
  {
    var edges := g.GetEdgesById(u);
    inside, degree := 0, 0;
    for j := 0 to |edges|
      invariant inside == ListSum(edges[..j], WithinShare(nodeSet, u))
      invariant degree == ListSum(edges[..j], WithinShare(g.nodes, u))
    {
      var edge := edges[j];
      assert multiset(edges)[edge] > 0;
      assert edges[..j + 1][..j] == edges[..j];
      degree := degree + edge.weight;
      if edge.Other(u) in nodeSet {
        inside := inside + edge.weight;
      }
    }
    assert edges[..|edges|] == edges;
    IncidenceGivesDegree(g, edges, nodeSet, u);
    IncidenceGivesDegree(g, edges, g.nodes, u);
  }

  method CommunityTotals<T(==,!new)>(g: KnowledgeGraph<T>, nodes: seq<T>) returns (inside: int, degrees: int)
    requires g.Valid()
    ensures inside == ListSum(nodes, g.Degrees(set u | u in nodes))
    ensures degrees == ListSum(nodes, g.Degrees(g.nodes))
  {
    var nodeSet := set u | u in nodes;
    inside, degrees := 0, 0;
    for i := 0 to |nodes|
      invariant inside == ListSum(nodes[..i], g.Degrees(nodeSet))
      invariant degrees == ListSum(nodes[..i], g.Degrees(g.nodes))
    {
      var w, k := NodeTotals(g, nodes[i], nodeSet);
      inside, degrees := inside + w, degrees + k;
      assert nodes[..i + 1][..i] == nodes[..i];
    }
    assert nodes[..|nodes|] == nodes;
  }

  lemma ListedTotals<T(!new)>(g: KnowledgeGraph<T>, nodes: seq<T>, s: set<T>)
    requires IsListing(nodes, s)
    ensures ListSum(nodes, g.Degrees(set u | u in nodes)) == g.TotalDegree(s)
    ensures ListSum(nodes, g.Degrees(g.nodes)) == Sum(s, g.Degrees(g.nodes))
  {
    assert (set u | u in nodes) == s;
    ListingSum(nodes, s, g.Degrees(s));
    ListingSum(nodes, s, g.Degrees(g.nodes));
  }

  /** The modularity that the nodes of `s` contribute. */
  ghost function Score<T(!new)>(g: KnowledgeGraph<T>, community: map<T, int>, s: set<T>): real
    requires g.TotalDegree(g.nodes) != 0
  {
    var m2 := g.TotalDegree(g.nodes);
    SquarePositive(m2);
    Potential(Surplus(g, g.nodes), community, s) as real / (m2 * m2) as real
  }

  lemma ScoreUnfolds<T(!new)>(g: KnowledgeGraph<T>, community: map<T, int>, s: set<T>)
    requires g.TotalDegree(g.nodes) != 0
    ensures var m2 := g.TotalDegree(g.nodes);
            m2 * m2 > 0
            && Score(g, community, s) == Potential(Surplus(g, g.nodes), community, s) as real / (m2 * m2) as real
    ensures s == {} ==> Score(g, community, s) == 0.0
  {
    SquarePositive(g.TotalDegree(g.nodes));
  }

  lemma ScoreOfNextCommunity<T(!new)>(g: KnowledgeGraph<T>, community: map<T, int>, covered: set<T>, s: set<T>,
                                      total: int)
    requires total != 0 && g.TotalDegree(g.nodes) == 2 * total
    requires covered !! s
    requires forall u, v :: u in covered && v in s ==> At(community, u) != At(community, v)
    requires forall u, v :: u in s && v in s ==> At(community, u) == At(community, v)
    ensures Score(g, community, covered + s)
         == Score(g, community, covered) + CommunityTerm(g.TotalDegree(s), Sum(s, g.Degrees(g.nodes)), total)
  {
    var m2, w, d := 2 * total, g.TotalDegree(s), Sum(s, g.Degrees(g.nodes));
    var b := Surplus(g, g.nodes);
    hide *;
    ScoreUnfolds(g, community, covered);
    ScoreUnfolds(g, community, covered + s);
    CommunityTermScaled(w, d, total);
    PotentialOfOneCommunity(g, g.nodes, community, s);
    SurplusSymmetric(g, g.nodes, covered + s);
    PotentialOfSeparate(b, community, covered, s);
    AddFractions(Potential(b, community, covered), Potential(b, community, s), m2 * m2);
  }

  /** The nodes whose communities have been visited. */
  ghost function Covered<T(!new)>(g: KnowledgeGraph<T>, community: map<T, int>, visited: seq<int>): set<T> {
    set u | u in Assigned(g, community) && At(community, u) in visited
  }

  lemma ScoreStep<T(!new)>(g: KnowledgeGraph<T>, community: map<T, int>, ids: seq<int>, i: nat, nodes: seq<T>,
                           total: int)
    requires total != 0 && g.TotalDegree(g.nodes) == 2 * total
    requires community.Keys == g.nodes
    requires i < |ids| && ids[i] != -1 && ids[i] !in ids[..i]
    requires IsListing(nodes, Members(community, ids[i]))
    ensures Score(g, community, Covered(g, community, ids[..i + 1]))
         == Score(g, community, Covered(g, community, ids[..i]))
          + CommunityTerm(ListSum(nodes, g.Degrees(set u | u in nodes)), ListSum(nodes, g.Degrees(g.nodes)), total)
  {
    var covered, s := Covered(g, community, ids[..i]), Members(community, ids[i]);
    assert ids[..i + 1] == ids[..i] + [ids[i]];
    assert Covered(g, community, ids[..i + 1]) == covered + s;
    hide Score, CommunityTerm, KnowledgeGraph.TotalDegree;
    ListedTotals(g, nodes, s);
    ScoreOfNextCommunity(g, community, covered, s, total);
  }

  /** The edges' weights, half of the total degree of all nodes. */
  method TotalEdgeWeight<T(==,!new)>(g: KnowledgeGraph<T>) returns (total: int)
    requires g.Valid()
    ensures 2 * total == g.TotalDegree(g.nodes)
  {
    var edges := g.GetEdges();
    total := 0;
    for i := 0 to |edges|
      invariant total == ListSum(edges[..i], WeightOf())
    {
      assert edges[..i + 1][..i] == edges[..i];
      total := total + edges[i].weight;
    }
    assert edges[..|edges|] == edges;
    ListingSum(edges, g.edges, WeightOf());
    SumExt(g.edges, InnerWeight(g.nodes), WeightOf());
    TotalDegreeIsTwiceInnerWeight(g, g.nodes);
  }

  lemma NoEdgesNoWeight<T(!new)>(g: KnowledgeGraph<T>, within: set<T>)
    requires g.edges == {}
    ensures g.TotalDegree(within) == 0
  {
    TotalDegreeIsTwiceInnerWeight(g, within);
  }

  /** The communities that have nodes. */
  ghost function CommunitiesOf<T(!new)>(g: KnowledgeGraph<T>, community: map<T, int>): set<int> {
    set u | u in Assigned(g, community) :: At(community, u)
  }

  ghost function NodesIn<T(!new)>(g: KnowledgeGraph<T>, community: map<T, int>, cs: set<int>): set<T> {
    set u | u in g.nodes && At(community, u) in cs
  }

  ghost function CommunityMembers<T(!new)>(g: KnowledgeGraph<T>, community: map<T, int>, c: int): set<T> {
    set u | u in g.nodes && At(community, u) == c
  }

  /** The textbook contribution of a community: the share of the weight that lies
      inside it, less the square of its share of all edge ends. */
  ghost function Share<T(!new)>(g: KnowledgeGraph<T>, community: map<T, int>): int -> real
    requires Sum(g.edges, WeightOf()) != 0
  {
    (c: int) =>
      var members, weight := CommunityMembers(g, community, c), Sum(g.edges, WeightOf());
      var ends := Sum(g.edges, EndWeight(members)) as real / (2 * weight) as real;
      Sum(g.edges, InnerWeight(members)) as real / weight as real - ends * ends
  }

  lemma TotalDegreeIsTwiceWeight<T(!new)>(g: KnowledgeGraph<T>)
    requires g.Valid()
    ensures g.TotalDegree(g.nodes) == 2 * Sum(g.edges, WeightOf())
  {
    TotalDegreeIsTwiceInnerWeight(g, g.nodes);
    SumExt(g.edges, InnerWeight(g.nodes), WeightOf());
  }

  lemma HalfOfTwice(w: int, total: int)
    requires total != 0
    ensures (2 * w) as real / 2.0 / total as real == w as real / total as real
  {
    assert (2 * w) as real / 2.0 == w as real;
  }

  lemma TermIsShare<T(!new)>(g: KnowledgeGraph<T>, community: map<T, int>, c: int)
    requires g.Valid() && Sum(g.edges, WeightOf()) != 0
    ensures var s := CommunityMembers(g, community, c);
            CommunityTerm(g.TotalDegree(s), Sum(s, g.Degrees(g.nodes)), Sum(g.edges, WeightOf()))
              == Share(g, community)(c)
  {
    var s := CommunityMembers(g, community, c);
    TotalDegreeIsTwiceInnerWeight(g, s);
    DegreesAreEndWeights(g, s);
    HalfOfTwice(Sum(g.edges, InnerWeight(s)), Sum(g.edges, WeightOf()));
  }

  lemma CoveredApart<T(!new)>(g: KnowledgeGraph<T>, community: map<T, int>, cs: set<int>, c: int)
    ensures var rest, s := NodesIn(g, community, cs - {c}), CommunityMembers(g, community, c);
            && rest !! s
            && (forall u, v :: u in rest && v in s ==> At(community, u) != At(community, v))
            && (forall u, v :: u in s && v in s ==> At(community, u) == At(community, v))
  {
  }

  lemma {:induction false} ScoreOfCommunities<T(!new)>(g: KnowledgeGraph<T>, community: map<T, int>, cs: set<int>)
    requires g.Valid() && g.TotalDegree(g.nodes) != 0 && Sum(g.edges, WeightOf()) != 0 && -1 !in cs
    ensures Score(g, community, NodesIn(g, community, cs)) == RealSum(cs, Share(g, community))
    decreases cs
  {
    if c :| c in cs {
      var covered, rest := NodesIn(g, community, cs), NodesIn(g, community, cs - {c});
      var s := CommunityMembers(g, community, c);
      assert covered == rest + s;
      hide *;
      ScoreOfCommunities(g, community, cs - {c});
      RealSumPick(cs, Share(g, community), c);
      CoveredApart(g, community, cs, c);
      TotalDegreeIsTwiceWeight(g);
      ScoreOfNextCommunity(g, community, rest, s, Sum(g.edges, WeightOf()));
      TermIsShare(g, community, c);
    } else {
      assert forall c :: c !in cs;
      assert cs == {};
      assert NodesIn(g, community, cs) == {};
      hide Score, Share;
      ScoreUnfolds(g, community, {});
    }
  }

  /** The modularity of the communities the nodes carry is the sum of the textbook
      contributions. */
  lemma ScoreIsTextbook<T(!new)>(g: KnowledgeGraph<T>, community: map<T, int>)
    requires g.Valid() && g.TotalDegree(g.nodes) != 0
    ensures Sum(g.edges, WeightOf()) != 0
    ensures Score(g, community, Assigned(g, community)) == RealSum(CommunitiesOf(g, community), Share(g, community))
  {
    TotalDegreeIsTwiceWeight(g);
    var cs := CommunitiesOf(g, community);
    assert Assigned(g, community) == NodesIn(g, community, cs);
    hide Score, Share, RealSum;
    ScoreOfCommunities(g, community, cs);
  }

  /** The loop over the communities. */
  method AddUpCommunities<T(==,!new)>(g: KnowledgeGraph<T>, community: map<T, int>, totalEdgeWeight: int)
    returns (modularity: real)
    requires g.Valid() && community.Keys == g.nodes
    requires totalEdgeWeight != 0 && 2 * totalEdgeWeight == g.TotalDegree(g.nodes)
    ensures modularity == Score(g, community, Assigned(g, community))
  {
    hide Score, Surplus, CommunityTerm, KnowledgeGraph.TotalDegree;
    var communities := GroupAssigned(g, community);
    var ids := ListOf(communities.Keys);
    modularity := 0.0;
    ScoreUnfolds(g, community, Covered(g, community, []));
    for i := 0 to |ids|
      invariant modularity == Score(g, community, Covered(g, community, ids[..i]))
    {
      var inside, degrees := CommunityTotals(g, communities[ids[i]]);
      modularity := modularity + CommunityTerm(inside, degrees, totalEdgeWeight);
      ScoreStep(g, community, ids, i, communities[ids[i]], totalEdgeWeight);
    }
    assert Covered(g, community, ids[..|ids|]) == Assigned(g, community);
  }

  /** The modularity of the communities the nodes carry. Nodes numbered -1
      belong to none. */
  method CalculateModularity<T(==,!new)>(g: KnowledgeGraph<T>, community: map<T, int>) returns (modularity: real)
    requires g.Valid() && community.Keys == g.nodes
    ensures g.TotalDegree(g.nodes) == 0 ==> modularity == 0.0
    ensures g.TotalDegree(g.nodes) != 0 ==> modularity == Score(g, community, Assigned(g, community))
    ensures Sum(g.edges, WeightOf()) == 0 ==> modularity == 0.0
    ensures Sum(g.edges, WeightOf()) != 0 ==> modularity == RealSum(CommunitiesOf(g, community), Share(g, community))
  {
    hide *;
    var totalEdgeWeight := TotalEdgeWeight(g);
    TotalDegreeIsTwiceWeight(g);
    if |g.edges| == 0 || totalEdgeWeight == 0 {
      if g.edges == {} { NoEdgesNoWeight(g, g.nodes); }
      return 0.0;
    }
    modularity := AddUpCommunities(g, community, totalEdgeWeight);
    ScoreIsTextbook(g, community);
  }

  /** When every node has a community, the value computed from scratch is the
      modularity that the optimizer's increments are about. */
  lemma ScoreIsModularity<T(!new)>(g: KnowledgeGraph<T>, community: map<T, int>)
    requires g.TotalDegree(g.nodes) != 0
    requires forall u :: u in g.nodes ==> At(community, u) != -1
    ensures Score(g, community, Assigned(g, community)) == ModularityOf(g, g.nodes, community)
  {
    assert Assigned(g, community) == g.nodes;
  }
}
