/** The graph layer: nodes, directed weighted edges, and the queries the
    community detection and the benchmark ask of them. */
module KnowledgeGraphs {
  import opened GoMaps
  import opened Sums

  datatype GraphEdge<T(==)> = GraphEdge(source: T, target: T, relationship: string, weight: int)
  {
    /** The end that is not `id`; for a self-loop, `id` itself. */
    function Other(id: T): T {
      if source == id then target else source
    }

    /** How often an edge is met when the edges at `id` are listed: once for
        each of its ends that is `id`. */
    function Ends(id: T): nat {
      (if source == id then 1 else 0) + (if target == id then 1 else 0)
    }
  }

  ghost predicate Joins<T>(e: GraphEdge<T>, u: T, v: T) {
    (e.source == u && e.target == v) || (e.source == v && e.target == u)
  }

  /** What a single edge adds to the weight between `u` and `v`. */
  ghost function LinkShare<T(!new)>(u: T, v: T): GraphEdge<T> -> int {
    (e: GraphEdge<T>) => (if e.source == u && e.target == v then e.weight else 0)
       + (if e.source == v && e.target == u then e.weight else 0)
  }

  /** Nodes are known by their ids. There is at most one edge for each ordered
      pair, and both ends of an edge are nodes. */
  datatype KnowledgeGraph<T(==,!new)> = KnowledgeGraph(nodes: set<T>, edges: set<GraphEdge<T>>)
  {
    ghost predicate Valid() {
      && (forall e :: e in edges ==> e.source in nodes && e.target in nodes)
      && (forall e, f :: e in edges && f in edges && e.source == f.source && e.target == f.target ==> e == f)
    }

    /** The ids, in some order. */
    method GetNodes() returns (ids: seq<T>)
      ensures IsListing(ids, nodes)
    {
      ids := ListOf(nodes);
    }

    /** The edges, in some order. */
    method GetEdges() returns (result: seq<GraphEdge<T>>)
      ensures IsListing(result, edges)
    {
      result := ListOf(edges);
    }

    /** The edges leaving `id` and then the edges entering it, each group in
        some order. A self-loop at `id` is therefore listed twice. */
    method GetEdgesById(id: T) returns (result: seq<GraphEdge<T>>)
      ensures IsIncidence(result, id)
    {
      var outgoing := ListOf(Outgoing(id));
      var incoming := ListOf(Incoming(id));
      result := outgoing + incoming;
      forall e ensures multiset(result)[e] == if e in edges then e.Ends(id) else 0 {
        ListingCount(outgoing, Outgoing(id), e);
        ListingCount(incoming, Incoming(id), e);
      }
    }

    /** The nodes one step along an edge from `id`, in some order. */
    method GetNeighbors(id: T) returns (result: seq<T>)
      ensures IsListing(result, Successors(id))
    {
      result := ListOf(Successors(id));
    }

    function Outgoing(id: T): set<GraphEdge<T>> {
      set e | e in edges && e.source == id
    }

    function Incoming(id: T): set<GraphEdge<T>> {
      set e | e in edges && e.target == id
    }

    function Successors(id: T): set<T> {
      set e | e in edges && e.source == id :: e.target
    }

    ghost predicate IsIncidence(es: seq<GraphEdge<T>>, id: T) {
      forall e :: multiset(es)[e] == if e in edges then e.Ends(id) else 0
    }

    /** Some edge joins `u` and `v`, in either direction. */
    ghost predicate Linked(u: T, v: T) {
      exists e :: e in edges && Joins(e, u, v)
    }

    /** The weight between `u` and `v` with direction forgotten. A self-loop
        counts once for each of its two ends. */
    ghost function LinkWeight(u: T, v: T): int {
      Sum(edges, LinkShare(u, v))
    }

    ghost function LinksFrom(u: T): T -> int {
      (v: T) => LinkWeight(u, v)
    }

    ghost function Degree(within: set<T>, u: T): int {
      Sum(within, LinksFrom(u))
    }

    ghost function Degrees(within: set<T>): T -> int {
      (u: T) => Degree(within, u)
    }

    ghost function TotalDegree(within: set<T>): int {
      Sum(within, Degrees(within))
    }
  }

  lemma LinkWeightSymmetric<T(!new)>(g: KnowledgeGraph<T>, u: T, v: T)
    ensures g.LinkWeight(u, v) == g.LinkWeight(v, u)
  {
    SumExt(g.edges, LinkShare(u, v), LinkShare(v, u));
  }

  lemma LinkWeightUnlinked<T(!new)>(g: KnowledgeGraph<T>, u: T, v: T)
    requires !g.Linked(u, v)
    ensures g.LinkWeight(u, v) == 0
  {
    SumZero(g.edges, LinkShare(u, v));
  }

  /** What an edge listed at `u` adds to the entry of `v`. */
  ghost function EntryShare<T(!new)>(u: T, v: T): GraphEdge<T> -> int {
    (e: GraphEdge<T>) => if e.Other(u) == v then e.weight else 0
  }

  lemma EndsTimesEntry<T(!new)>(e: GraphEdge<T>, u: T, v: T)
    ensures e.Ends(u) * EntryShare(u, v)(e) == LinkShare(u, v)(e)
  {
  }

  /** Adding up the edges listed at `u` whose far end is `v` gives exactly the
      undirected weight between the two, self-loops included. */
  lemma IncidenceGivesLinkWeight<T(!new)>(g: KnowledgeGraph<T>, es: seq<GraphEdge<T>>, u: T, v: T)
    requires g.IsIncidence(es, u)
    ensures ListSum(es, EntryShare(u, v)) == g.LinkWeight(u, v)
  {
    forall e | e in es ensures e in g.edges {
      assert multiset(es)[e] > 0;
    }
    var f := EntryShare(u, v);
    ListSumByCount(es, g.edges, f);
    forall e | e in g.edges ensures Counted(es, f)(e) == LinkShare(u, v)(e) {
      EndsTimesEntry(e, u, v);
    }
    SumExt(g.edges, Counted(es, f), LinkShare(u, v));
  }

  /** Edges with both ends in `within`. */
  ghost function InnerWeight<T(!new)>(within: set<T>): GraphEdge<T> -> int {
    (e: GraphEdge<T>) => if e.source in within && e.target in within then e.weight else 0
  }

  /** One row of the weight matrix, edge by edge. */
  ghost function RowShare<T(!new)>(within: set<T>, u: T): GraphEdge<T> -> int {
    (e: GraphEdge<T>) => (if e.source == u && e.target in within then e.weight else 0)
       + (if e.target == u && e.source in within then e.weight else 0)
  }

  lemma DegreeByEdges<T(!new)>(g: KnowledgeGraph<T>, within: set<T>, u: T)
    ensures g.Degree(within, u) == Sum(g.edges, RowShare(within, u))
  {
    var f := (v: T, e: GraphEdge<T>) => LinkShare(u, v)(e);
    forall v | v in within ensures g.LinkWeight(u, v) == Sum(g.edges, RowOf(f, v)) {
      SumExt(g.edges, LinkShare(u, v), RowOf(f, v));
    }
    forall e | e in g.edges ensures RowShare(within, u)(e) == Sum(within, ColumnOf(f, e)) {
      var out := (v: T) => if e.source == u && e.target == v then e.weight else 0;
      var back := (v: T) => if e.source == v && e.target == u then e.weight else 0;
      SumAdd(within, out, back, ColumnOf(f, e));
      if e.target in within { SumSingle(within, out, e.target); } else { SumZero(within, out); }
      if e.source in within { SumSingle(within, back, e.source); } else { SumZero(within, back); }
    }
    SumSwap(within, g.edges, f, g.LinksFrom(u), RowShare(within, u));
  }

  /** The accumulated degrees are twice the weight of the edges inside the node
      set, whether the set is all the nodes or a filtered subset. */
  lemma TotalDegreeIsTwiceInnerWeight<T(!new)>(g: KnowledgeGraph<T>, within: set<T>)
    ensures g.TotalDegree(within) == 2 * Sum(g.edges, InnerWeight(within))
  {
    var f := (u: T, e: GraphEdge<T>) => RowShare(within, u)(e);
    forall u | u in within ensures g.Degree(within, u) == Sum(g.edges, RowOf(f, u)) {
      DegreeByEdges(g, within, u);
      SumExt(g.edges, RowShare(within, u), RowOf(f, u));
    }
    var twice := Times(2, InnerWeight(within));
    forall e | e in g.edges ensures twice(e) == Sum(within, ColumnOf(f, e)) {
      var out := (u: T) => if e.source == u && e.target in within then e.weight else 0;
      var back := (u: T) => if e.target == u && e.source in within then e.weight else 0;
      forall u | u in within ensures ColumnOf(f, e)(u) == out(u) + back(u) {
        assert ColumnOf(f, e)(u) == RowShare(within, u)(e);
      }
      SumAdd(within, out, back, ColumnOf(f, e));
      if e.source in within { SumSingle(within, out, e.source); } else { SumZero(within, out); }
      if e.target in within { SumSingle(within, back, e.target); } else { SumZero(within, back); }
      assert Sum(within, out) == InnerWeight(within)(e) == Sum(within, back);
    }
    SumSwap(within, g.edges, f, g.Degrees(within), twice);
    SumTimes(g.edges, 2, InnerWeight(within));
  }

  /** The weight of an edge for each of its ends in `s`. */
  ghost function EndWeight<T(!new)>(s: set<T>): GraphEdge<T> -> int {
    (e: GraphEdge<T>) => (if e.source in s then e.weight else 0) + (if e.target in s then e.weight else 0)
  }

  /** The degrees of some nodes add up to the weights of the edge ends at them. */
  lemma DegreesAreEndWeights<T(!new)>(g: KnowledgeGraph<T>, s: set<T>)
    requires g.Valid()
    ensures Sum(s, g.Degrees(g.nodes)) == Sum(g.edges, EndWeight(s))
  {
    var f := (u: T, e: GraphEdge<T>) => RowShare(g.nodes, u)(e);
    forall u | u in s ensures g.Degree(g.nodes, u) == Sum(g.edges, RowOf(f, u)) {
      DegreeByEdges(g, g.nodes, u);
      SumExt(g.edges, RowShare(g.nodes, u), RowOf(f, u));
    }
    forall e | e in g.edges ensures EndWeight(s)(e) == Sum(s, ColumnOf(f, e)) {
      var out := (u: T) => if e.source == u && e.target in g.nodes then e.weight else 0;
      var back := (u: T) => if e.target == u && e.source in g.nodes then e.weight else 0;
      forall u | u in s ensures ColumnOf(f, e)(u) == out(u) + back(u) {
        assert ColumnOf(f, e)(u) == RowShare(g.nodes, u)(e);
      }
      SumAdd(s, out, back, ColumnOf(f, e));
      if e.source in s { SumSingle(s, out, e.source); } else { SumZero(s, out); }
      if e.target in s { SumSingle(s, back, e.target); } else { SumZero(s, back); }
    }
    SumSwap(s, g.edges, f, g.Degrees(g.nodes), EndWeight(s));
  }

  ghost function WeightOf<T(!new)>(): GraphEdge<T> -> int {
    (e: GraphEdge<T>) => e.weight
  }

  /** What an edge listed at `u` adds when only far ends in `within` count. */
  ghost function WithinShare<T(!new)>(within: set<T>, u: T): GraphEdge<T> -> int {
    (e: GraphEdge<T>) => if e.Other(u) in within then e.weight else 0
  }

  lemma EndsTimesWithin<T(!new)>(e: GraphEdge<T>, within: set<T>, u: T)
    ensures e.Ends(u) * WithinShare(within, u)(e) == RowShare(within, u)(e)
  {
  }

  lemma IncidenceGivesDegree<T(!new)>(g: KnowledgeGraph<T>, es: seq<GraphEdge<T>>, within: set<T>, u: T)
    requires g.IsIncidence(es, u)
    ensures ListSum(es, WithinShare(within, u)) == g.Degree(within, u)
  {
    forall e | e in es ensures e in g.edges {
      assert multiset(es)[e] > 0;
    }
    var f := WithinShare(within, u);
    ListSumByCount(es, g.edges, f);
    forall e | e in g.edges ensures Counted(es, f)(e) == RowShare(within, u)(e) {
      EndsTimesWithin(e, within, u);
    }
    SumExt(g.edges, Counted(es, f), RowShare(within, u));
    DegreeByEdges(g, within, u);
  }
}
