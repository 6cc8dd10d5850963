/** The bounded breadth-first exploration behind the token estimate. */
module Benchmark {
  import opened GoMaps
  import opened KnowledgeGraphs

  ghost function StepFrom<T(!new)>(g: KnowledgeGraph<T>, s: set<T>): set<T> {
    set e | e in g.edges && e.source in s :: e.target
  }

  /** The nodes at most `n` out-steps from the seeds. */
  ghost function Within<T(!new)>(g: KnowledgeGraph<T>, seeds: set<T>, n: nat): set<T> {
    if n == 0 then seeds else Within(g, seeds, n - 1) + StepFrom(g, Within(g, seeds, n - 1))
  }

  /** The nodes first reached at step `n`. */
  ghost function Layer<T(!new)>(g: KnowledgeGraph<T>, seeds: set<T>, n: nat): set<T> {
    if n == 0 then seeds else Within(g, seeds, n) - Within(g, seeds, n - 1)
  }

  ghost predicate IsPath<T(!new)>(g: KnowledgeGraph<T>, p: seq<T>) {
    |p| > 0 && forall i :: 0 <= i < |p| - 1 ==> p[i + 1] in g.Successors(p[i])
  }

  ghost predicate Leads<T(!new)>(g: KnowledgeGraph<T>, p: seq<T>, seeds: set<T>, v: T) {
    IsPath(g, p) && p[0] in seeds && p[|p| - 1] == v
  }

  /** The newest layer is enough to compute the next one. */
  lemma NextFromFrontier<T(!new)>(g: KnowledgeGraph<T>, seeds: set<T>, n: nat)
    ensures Within(g, seeds, n + 1) == Within(g, seeds, n) + StepFrom(g, Layer(g, seeds, n))
  {
    if n > 0 {
      assert Within(g, seeds, n) == Within(g, seeds, n - 1) + StepFrom(g, Within(g, seeds, n - 1));
    }
  }

  lemma {:induction false} WithinByPaths<T(!new)>(g: KnowledgeGraph<T>, seeds: set<T>, n: nat, v: T) returns (p: seq<T>)
    requires v in Within(g, seeds, n)
    ensures Leads(g, p, seeds, v) && |p| - 1 <= n
  {
    if n == 0 {
      p := [v];
    } else if v in Within(g, seeds, n - 1) {
      p := WithinByPaths(g, seeds, n - 1, v);
    } else {
      var e :| e in g.edges && e.source in Within(g, seeds, n - 1) && e.target == v;
      var q := WithinByPaths(g, seeds, n - 1, e.source);
      p := q + [v];
      forall i | 0 <= i < |p| - 1 ensures p[i + 1] in g.Successors(p[i]) {
        if i < |q| - 1 {
          assert q[i + 1] in g.Successors(q[i]);
        }
      }
    }
  }

  lemma {:induction false} PathsStayWithin<T(!new)>(g: KnowledgeGraph<T>, seeds: set<T>, p: seq<T>, v: T)
    requires Leads(g, p, seeds, v)
    ensures v in Within(g, seeds, |p| - 1)
    decreases |p|
  {
    var n := |p| - 1;
    if n > 0 {
      var q := p[..n];
      assert IsPath(g, q) by {
        forall i | 0 <= i < |q| - 1 ensures q[i + 1] in g.Successors(q[i]) {
          assert p[i + 1] in g.Successors(p[i]);
        }
      }
      PathsStayWithin(g, seeds, q, q[n - 1]);
      assert p[n - 1 + 1] in g.Successors(p[n - 1]);
    }
  }

  lemma {:induction false} WithinGrows<T(!new)>(g: KnowledgeGraph<T>, seeds: set<T>, m: nat, n: nat)
    requires m <= n
    ensures Within(g, seeds, m) <= Within(g, seeds, n)
    decreases n - m
  {
    if m < n {
      WithinGrows(g, seeds, m + 1, n);
    }
  }

  /** Exactly the nodes that a path of at most `n` edges leads to. */
  lemma WithinIsReachability<T(!new)>(g: KnowledgeGraph<T>, seeds: set<T>, n: nat, v: T)
    ensures v in Within(g, seeds, n) <==> exists p :: Leads(g, p, seeds, v) && |p| - 1 <= n
  {
    if v in Within(g, seeds, n) {
      var p := WithinByPaths(g, seeds, n, v);
    }
    if p :| Leads(g, p, seeds, v) && |p| - 1 <= n {
      PathsStayWithin(g, seeds, p, v);
      WithinGrows(g, seeds, |p| - 1, n);
    }
  }

  /** A layer is one exact distance: some path of `n` edges, none shorter. */
  lemma LayerIsExactDistance<T(!new)>(g: KnowledgeGraph<T>, seeds: set<T>, n: nat, v: T)
    ensures v in Layer(g, seeds, n) <==>
              && (exists p :: Leads(g, p, seeds, v) && |p| - 1 == n)
              && (forall p :: Leads(g, p, seeds, v) ==> |p| - 1 >= n)
  {
    if v in Layer(g, seeds, n) {
      forall p | Leads(g, p, seeds, v) ensures |p| - 1 >= n {
        if |p| - 1 < n {
          PathsStayWithin(g, seeds, p, v);
          WithinGrows(g, seeds, |p| - 1, n - 1);
          assert false;
        }
      }
      var p := WithinByPaths(g, seeds, n, v);
      assert Leads(g, p, seeds, v) && |p| - 1 == n;
    } else if (exists p :: Leads(g, p, seeds, v) && |p| - 1 == n) && n > 0 {
      var p :| Leads(g, p, seeds, v) && |p| - 1 == n;
      PathsStayWithin(g, seeds, p, v);
      var q := WithinByPaths(g, seeds, n - 1, v);
      assert Leads(g, q, seeds, v) && |q| - 1 < n;
    }
  }

  /** The edge joins a node of layer `i` and a successor first reached from it. */
  ghost predicate CrossesAt<T(!new)>(g: KnowledgeGraph<T>, seeds: set<T>, i: nat, e: GraphEdge<T>) {
    e in g.edges && exists u, v :: u in Layer(g, seeds, i) && v in Layer(g, seeds, i + 1)
                                   && v in g.Successors(u) && Joins(e, u, v)
  }

  ghost predicate CrossesBefore<T(!new)>(g: KnowledgeGraph<T>, seeds: set<T>, n: nat, e: GraphEdge<T>) {
    exists i :: 0 <= i < n && CrossesAt(g, seeds, i, e)
  }

  /** `found` is what the nodes of `us` add to the next layer. */
  ghost predicate IsExpansion<T(!new)>(g: KnowledgeGraph<T>, visited: set<T>, us: seq<T>, found: set<T>,
                                       edges: seq<GraphEdge<T>>) {
    && found == StepFrom(g, (set u | u in us)) - visited
    && forall e :: e in edges <==>
         e in g.edges && exists u, v :: u in us && v !in visited && v in g.Successors(u) && Joins(e, u, v)
  }

  /** The edges listed at `u` that have `v` at one end. */
  method EdgesBetween<T(==,!new)>(g: KnowledgeGraph<T>, u: T, v: T) returns (edges: seq<GraphEdge<T>>)
    requires u != v
    ensures forall e :: e in edges <==> e in g.edges && Joins(e, u, v)
  {
    edges := [];
    var listed := g.GetEdgesById(u);
    for i := 0 to |listed|
      invariant forall e :: e in edges <==> e in listed[..i] && (e.target == v || e.source == v)
    {
      assert listed[..i + 1] == listed[..i] + [listed[i]];
      if listed[i].target == v || listed[i].source == v {
        edges := edges + [listed[i]];
      }
    }
    assert listed[..|listed|] == listed;
    forall e ensures e in listed && (e.target == v || e.source == v) <==> e in g.edges && Joins(e, u, v) {
      assert e in listed <==> multiset(listed)[e] > 0;
    }
  }

  /** One frontier node: its unvisited neighbours and the edges between. */
  method ExpandNode<T(==,!new)>(g: KnowledgeGraph<T>, visited: set<T>, u: T)
    returns (found: set<T>, edges: seq<GraphEdge<T>>)
    requires u in visited
    ensures IsExpansion(g, visited, [u], found, edges)
  {
    found, edges := {}, [];
    var neighbors := g.GetNeighbors(u);
    for i := 0 to |neighbors|
      invariant found == set v | v in neighbors[..i] && v !in visited
      invariant forall e :: e in edges <==>
                  e in g.edges && exists v :: v in neighbors[..i] && v !in visited && Joins(e, u, v)
    {
      var neighbor := neighbors[i];
      assert neighbors[..i + 1] == neighbors[..i] + [neighbor];
      if neighbor !in visited {
        found := found + {neighbor};
        var more := EdgesBetween(g, u, neighbor);
        edges := edges + more;
      }
    }
    assert neighbors[..|neighbors|] == neighbors;
    assert (set w | w in [u]) == {u};
  }

  /** The edge joins a node of `s` and an unvisited successor of it. */
  ghost predicate Discovers<T(!new)>(g: KnowledgeGraph<T>, visited: set<T>, s: set<T>, e: GraphEdge<T>) {
    e in g.edges && exists u, v :: u in s && v !in visited && v in g.Successors(u) && Joins(e, u, v)
  }

  lemma ExpansionStep<T(!new)>(g: KnowledgeGraph<T>, visited: set<T>, us: seq<T>, u: T,
                               found: set<T>, edges: seq<GraphEdge<T>>, more: set<T>, moreEdges: seq<GraphEdge<T>>)
    requires IsExpansion(g, visited, us, found, edges) && IsExpansion(g, visited, [u], more, moreEdges)
    ensures IsExpansion(g, visited, us + [u], found + more, edges + moreEdges)
  {
    var s, t := set w | w in us, set w | w in us + [u];
    assert t == s + {u} && (set w | w in [u]) == {u};
    assert StepFrom(g, t) == StepFrom(g, s) + StepFrom(g, {u});
    forall e ensures e in edges + moreEdges <==>
      e in g.edges && exists x, v :: x in us + [u] && v !in visited && v in g.Successors(x) && Joins(e, x, v)
    {
      if x, v :| x in us + [u] && v !in visited && v in g.Successors(x) && Joins(e, x, v) {
        assert x in us || x in [u];
      }
    }
  }

  lemma NoExpansion<T(!new)>(g: KnowledgeGraph<T>, visited: set<T>)
    ensures IsExpansion(g, visited, [], {}, [])
  {
  }

  lemma ExpansionOfSet<T(!new)>(g: KnowledgeGraph<T>, visited: set<T>, us: seq<T>, s: set<T>, found: set<T>,
                                edges: seq<GraphEdge<T>>)
    requires IsExpansion(g, visited, us, found, edges) && IsListing(us, s)
    ensures found == StepFrom(g, s) - visited
    ensures forall e :: e in edges <==> Discovers(g, visited, s, e)
  {
    assert (set w | w in us) == s;
  }

  /** One round: the whole frontier, in any order. */
  method ExpandFrontier<T(==,!new)>(g: KnowledgeGraph<T>, visited: set<T>, frontier: set<T>)
    returns (next: set<T>, edges: seq<GraphEdge<T>>)
    requires frontier <= visited
    ensures next == StepFrom(g, frontier) - visited
    ensures forall e :: e in edges <==> Discovers(g, visited, frontier, e)
  {
    var ids := ListOf(frontier);
    next, edges := {}, [];
    assert IsExpansion(g, visited, ids[..0], next, edges) by { NoExpansion(g, visited); }
    hide IsExpansion;
    for i := 0 to |ids|
      invariant IsExpansion(g, visited, ids[..i], next, edges)
    {
      assert ids[i] in ids;
      var found, more := ExpandNode(g, visited, ids[i]);
      ExpansionStep(g, visited, ids[..i], ids[i], next, edges, found, more);
      assert ids[..i + 1] == ids[..i] + [ids[i]];
      next, edges := next + found, edges + more;
    }
    assert ids[..|ids|] == ids;
    ExpansionOfSet(g, visited, ids, frontier, next, edges);
  }

  lemma NothingCrossed<T(!new)>(g: KnowledgeGraph<T>, seeds: set<T>)
    ensures Within(g, seeds, 0) == seeds == Layer(g, seeds, 0)
    ensures forall e :: !CrossesBefore(g, seeds, 0, e)
  {
  }

  lemma LayerWithin<T(!new)>(g: KnowledgeGraph<T>, seeds: set<T>, i: nat)
    ensures Layer(g, seeds, i) <= Within(g, seeds, i)
    ensures var next := StepFrom(g, Layer(g, seeds, i)) - Within(g, seeds, i);
            Within(g, seeds, i + 1) == Within(g, seeds, i) + next && Layer(g, seeds, i + 1) == next
  {
    NextFromFrontier(g, seeds, i);
  }

  lemma NewlyFound<T(!new)>(g: KnowledgeGraph<T>, seeds: set<T>, i: nat, e: GraphEdge<T>)
    ensures CrossesAt(g, seeds, i, e) <==> Discovers(g, Within(g, seeds, i), Layer(g, seeds, i), e)
  {
    if e in g.edges {
      if u, v :| u in Layer(g, seeds, i) && v !in Within(g, seeds, i) && v in g.Successors(u) && Joins(e, u, v) {
        var f :| f in g.edges && f.source == u && f.target == v;
        assert v in StepFrom(g, Layer(g, seeds, i));
        NextFromFrontier(g, seeds, i);
        assert v in Layer(g, seeds, i + 1);
      }
    }
  }

  lemma CrossesLater<T(!new)>(g: KnowledgeGraph<T>, seeds: set<T>, i: nat, e: GraphEdge<T>)
    ensures CrossesBefore(g, seeds, i + 1, e) <==> CrossesBefore(g, seeds, i, e) || CrossesAt(g, seeds, i, e)
  {
  }

  /** After the rounds, exactly the nodes within reach have been visited, the
      frontier is one exact distance layer, and the collected edges are those
      that cross from one layer to the next. */
  method Explore<T(==,!new)>(g: KnowledgeGraph<T>, seeds: set<T>, depths: int)
    returns (visited: set<T>, frontier: set<T>, edgesSeen: seq<GraphEdge<T>>)
    ensures var n := if depths < 0 then 0 else depths;
            && visited == Within(g, seeds, n) && frontier == Layer(g, seeds, n)
            && forall e :: e in edgesSeen <==> CrossesBefore(g, seeds, n, e)
  {
    visited, frontier, edgesSeen := seeds, seeds, [];
    NothingCrossed(g, seeds);
    hide Layer, Within, CrossesBefore, Discovers, StepFrom;
    var i := 0;
    while i < depths
      invariant 0 <= i && (i <= depths || (depths < 0 && i == 0))
      invariant visited == Within(g, seeds, i) && frontier == Layer(g, seeds, i)
      invariant forall e :: e in edgesSeen <==> CrossesBefore(g, seeds, i, e)
    {
      LayerWithin(g, seeds, i);
      var next, edges := ExpandFrontier(g, visited, frontier);
      forall e ensures e in edgesSeen + edges <==> CrossesBefore(g, seeds, i + 1, e) {
        NewlyFound(g, seeds, i, e);
        CrossesLater(g, seeds, i, e);
      }
      visited, frontier, edgesSeen := visited + next, next, edgesSeen + edges;
      i := i + 1;
    }
  }

  /** Every collected edge has both ends among the visited nodes. */
  lemma CollectedEndsAreVisited<T(!new)>(g: KnowledgeGraph<T>, seeds: set<T>, n: nat, e: GraphEdge<T>)
    requires CrossesBefore(g, seeds, n, e)
    ensures e.source in Within(g, seeds, n) && e.target in Within(g, seeds, n)
  {
    var i :| 0 <= i < n && CrossesAt(g, seeds, i, e);
    var u, v :| u in Layer(g, seeds, i) && v in Layer(g, seeds, i + 1) && v in g.Successors(u) && Joins(e, u, v);
    hide Within, Layer, KnowledgeGraph.Successors;
    LayerWithin(g, seeds, i);
    LayerWithin(g, seeds, i + 1);
    WithinGrows(g, seeds, i, n);
    WithinGrows(g, seeds, i + 1, n);
    assert u in Within(g, seeds, n) && v in Within(g, seeds, n);
  }

  function EdgeKey(e: GraphEdge<string>): string {
    e.source + "-" + e.relationship + "-" + e.target
  }

  ghost predicate EndsVisited(e: GraphEdge<string>, visited: set<string>) {
    e.source in visited && e.target in visited
  }

  /** No earlier edge has the same key. */
  ghost predicate IsFirst(edgesSeen: seq<GraphEdge<string>>, i: nat)
    requires i < |edgesSeen|
  {
    forall j :: 0 <= j < i ==> EdgeKey(edgesSeen[j]) != EdgeKey(edgesSeen[i])
  }

  /** The edges for which a line is written: the first with each key, if both
      its ends were visited. */
  ghost predicate IsKept(edgesSeen: seq<GraphEdge<string>>, visited: set<string>, n: nat, k: GraphEdge<string>)
    requires n <= |edgesSeen|
  {
    exists i :: 0 <= i < n && edgesSeen[i] == k && IsFirst(edgesSeen, i) && EndsVisited(k, visited)
  }

  lemma KeptNext(edgesSeen: seq<GraphEdge<string>>, visited: set<string>, i: nat)
    requires i < |edgesSeen|
    ensures forall k :: IsKept(edgesSeen, visited, i + 1, k) <==>
              IsKept(edgesSeen, visited, i, k)
              || (k == edgesSeen[i] && IsFirst(edgesSeen, i) && EndsVisited(k, visited))
  {
  }

  lemma {:induction false} FirstLike(edgesSeen: seq<GraphEdge<string>>, i: nat) returns (j: nat)
    requires i < |edgesSeen|
    ensures j <= i && EdgeKey(edgesSeen[j]) == EdgeKey(edgesSeen[i]) && IsFirst(edgesSeen, j)
  {
    if IsFirst(edgesSeen, i) {
      j := i;
    } else {
      var k :| 0 <= k < i && EdgeKey(edgesSeen[k]) == EdgeKey(edgesSeen[i]);
      j := FirstLike(edgesSeen, k);
    }
  }

  /** When all ends were visited the filter rejects nothing: every key collected
      is represented. */
  method EdgeLines(edgesSeen: seq<GraphEdge<string>>, visited: set<string>) returns (kept: seq<GraphEdge<string>>)
    ensures forall k :: k in kept <==> IsKept(edgesSeen, visited, |edgesSeen|, k)
    ensures forall i, j :: 0 <= i < j < |kept| ==> EdgeKey(kept[i]) != EdgeKey(kept[j])
    ensures (forall e :: e in edgesSeen ==> EndsVisited(e, visited)) ==>
              forall e :: e in edgesSeen ==> exists k :: k in kept && EdgeKey(k) == EdgeKey(e)
  {
    kept := [];
    var edgeSeenMap: set<string> := {};
    for i := 0 to |edgesSeen|
      invariant forall key :: key in edgeSeenMap <==> exists j :: 0 <= j < i && EdgeKey(edgesSeen[j]) == key
      invariant forall k :: k in kept <==> IsKept(edgesSeen, visited, i, k)
      invariant forall k :: k in kept ==> EdgeKey(k) in edgeSeenMap
      invariant forall a, b :: 0 <= a < b < |kept| ==> EdgeKey(kept[a]) != EdgeKey(kept[b])
    {
      var edge := edgesSeen[i];
      KeptNext(edgesSeen, visited, i);
      if EdgeKey(edge) !in edgeSeenMap {
        edgeSeenMap := edgeSeenMap + {EdgeKey(edge)};
        if edge.source in visited && edge.target in visited {
          kept := kept + [edge];
        }
      }
    }
    if forall e :: e in edgesSeen ==> EndsVisited(e, visited) {
      forall e | e in edgesSeen ensures exists k :: k in kept && EdgeKey(k) == EdgeKey(e) {
        var i :| 0 <= i < |edgesSeen| && edgesSeen[i] == e;
        var j := FirstLike(edgesSeen, i);
        assert IsKept(edgesSeen, visited, |edgesSeen|, edgesSeen[j]);
      }
    }
  }

  lemma DashComesLater(a: string, x: string, b: string, y: string)
    requires '-' !in b && a + "-" + x == b + "-" + y
    ensures |b| <= |a|
  {
    assert (a + "-" + x)[|a|] == '-';
  }

  /** A text without dashes is found again in front of the first dash. */
  lemma FirstDash(a: string, x: string, b: string, y: string)
    requires '-' !in a && '-' !in b && a + "-" + x == b + "-" + y
    ensures a == b && x == y
  {
    DashComesLater(a, x, b, y);
    DashComesLater(b, y, a, x);
    var s := a + "-" + x;
    assert a == s[..|a|] && b == s[..|b|];
    assert x == s[|a| + 1..] && y == s[|b| + 1..];
  }

  /** No source id and no relationship contains a dash. */
  ghost predicate IsDashFree(g: KnowledgeGraph<string>) {
    forall e :: e in g.edges ==> '-' !in e.source && '-' !in e.relationship
  }

  /** Then a key stands for one edge. */
  lemma KeysAreDistinct(g: KnowledgeGraph<string>, e: GraphEdge<string>, f: GraphEdge<string>)
    requires g.Valid() && IsDashFree(g) && e in g.edges && f in g.edges && EdgeKey(e) == EdgeKey(f)
    ensures e == f
  {
    var x, y := e.relationship + "-" + e.target, f.relationship + "-" + f.target;
    assert EdgeKey(e) == e.source + "-" + x && EdgeKey(f) == f.source + "-" + y;
    FirstDash(e.source, x, f.source, y);
    FirstDash(e.relationship, e.target, f.relationship, f.target);
  }

  /** Source, relationship and target read the same when joined by dashes. */
  ghost predicate ShareKey(e: GraphEdge<string>, f: GraphEdge<string>) {
    e.source + "-" + e.relationship + "-" + e.target == f.source + "-" + f.relationship + "-" + f.target
  }

  /** Otherwise different edges may share a key, and only one gets a line. */
  lemma KeysMayCollide()
    ensures var e, f := GraphEdge("a-b", "d", "c", 1), GraphEdge("a", "c-d", "b", 1);
            e != f && ShareKey(e, f)
  {
  }

  /** That is what it means to have the same key. */
  lemma KeysAreShared(e: GraphEdge<string>, f: GraphEdge<string>)
    ensures ShareKey(e, f) <==> EdgeKey(e) == EdgeKey(f)
  {
  }

  /** From the seeds to the edge lines: nothing collected is dropped but for its
      key, and if keys tell edges apart every edge crossed gets exactly one line. */
  method EstimateLines(g: KnowledgeGraph<string>, seeds: set<string>, depths: int)
    returns (visited: set<string>, kept: seq<GraphEdge<string>>)
    requires g.Valid()
    ensures var n := if depths < 0 then 0 else depths;
            && visited == Within(g, seeds, n)
            && (forall k :: k in kept ==> CrossesBefore(g, seeds, n, k))
            && (forall e :: CrossesBefore(g, seeds, n, e) ==> exists k :: k in kept && EdgeKey(k) == EdgeKey(e))
            && (forall i, j :: 0 <= i < j < |kept| ==> EdgeKey(kept[i]) != EdgeKey(kept[j]))
            && (IsDashFree(g) ==> forall e :: e in kept <==> CrossesBefore(g, seeds, n, e))
  {
    ghost var n := if depths < 0 then 0 else depths;
    var frontier, edgesSeen;
    visited, frontier, edgesSeen := Explore(g, seeds, depths);
    hide Within, Layer, IsFirst, EdgeKey, IsDashFree;
    forall e | e in edgesSeen ensures EndsVisited(e, visited) {
      CollectedEndsAreVisited(g, seeds, n, e);
    }
    kept := EdgeLines(edgesSeen, visited);
    forall k | k in kept ensures CrossesBefore(g, seeds, n, k) {
      assert IsKept(edgesSeen, visited, |edgesSeen|, k);
      assert k in edgesSeen;
    }
    forall e | CrossesBefore(g, seeds, n, e) ensures exists k :: k in kept && EdgeKey(k) == EdgeKey(e) {
      assert e in edgesSeen;
    }
    if IsDashFree(g) {
      forall e | CrossesBefore(g, seeds, n, e) ensures e in kept {
        var k :| k in kept && EdgeKey(k) == EdgeKey(e);
        assert CrossesBefore(g, seeds, n, k);
        KeysAreDistinct(g, k, e);
      }
    }
  }
}
