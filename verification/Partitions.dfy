/** Partitions of a node set into numbered communities, and the potential a
    symmetric matrix gives to a partition. */
module Partitions {
  import opened GoMaps
  import opened Sums

  type Matrix<!T> = (T, T) -> int

  ghost predicate Symmetric<T(!new)>(b: Matrix<T>, s: set<T>) {
    forall u, v :: u in s && v in s ==> b(u, v) == b(v, u)
  }

  ghost function PairShare<T(!new)>(b: Matrix<T>, part: map<T, int>, u: T): T -> int {
    (v: T) => if At(part, u) == At(part, v) then b(u, v) else 0
  }

  ghost function RowTotal<T(!new)>(b: Matrix<T>, part: map<T, int>, s: set<T>): T -> int {
    (u: T) => Sum(s, PairShare(b, part, u))
  }

  /** The sum of the entries between two nodes of the same community. */
  ghost function Potential<T(!new)>(b: Matrix<T>, part: map<T, int>, s: set<T>): int {
    Sum(s, RowTotal(b, part, s))
  }

  ghost function Towards<T(!new)>(b: Matrix<T>, part: map<T, int>, x: T, c: int): T -> int {
    (v: T) => if v != x && At(part, v) == c then b(x, v) else 0
  }

  /** The entries of `x` towards the other members of community `c`. */
  ghost function Pull<T(!new)>(b: Matrix<T>, part: map<T, int>, s: set<T>, x: T, c: int): int {
    Sum(s, Towards(b, part, x, c))
  }

  lemma PotentialSplit<T(!new)>(b: Matrix<T>, part: map<T, int>, s: set<T>, x: T)
    requires x in s && Symmetric(b, s)
    ensures Potential(b, part, s) == b(x, x) + 2 * Pull(b, part, s, x, At(part, x)) + Potential(b, part, s - {x})
  {
    var rest := s - {x};
    var pull := Towards(b, part, x, At(part, x));
    SumPick(s, RowTotal(b, part, s), x);
    SumPick(s, PairShare(b, part, x), x);
    SumPick(s, pull, x);
    SumExt(rest, PairShare(b, part, x), pull);
    forall u | u in rest ensures RowTotal(b, part, s)(u) == pull(u) + RowTotal(b, part, rest)(u) {
      SumPick(s, PairShare(b, part, u), x);
    }
    SumAdd(rest, pull, RowTotal(b, part, rest), RowTotal(b, part, s));
  }

  lemma PotentialExt<T(!new)>(b: Matrix<T>, p: map<T, int>, q: map<T, int>, s: set<T>)
    requires forall u :: u in s ==> At(p, u) == At(q, u)
    ensures Potential(b, p, s) == Potential(b, q, s)
  {
    forall u | u in s ensures RowTotal(b, p, s)(u) == RowTotal(b, q, s)(u) {
      SumExt(s, PairShare(b, p, u), PairShare(b, q, u));
    }
    SumExt(s, RowTotal(b, p, s), RowTotal(b, q, s));
  }

  /** Moving one node changes the potential by twice the difference of its
      pulls, whatever the rest of the partition looks like. */
  lemma MoveChangesPotential<T(!new)>(b: Matrix<T>, part: map<T, int>, s: set<T>, x: T, c: int)
    requires x in s && Symmetric(b, s)
    ensures Potential(b, part[x := c], s) - Potential(b, part, s)
         == 2 * (Pull(b, part, s, x, c) - Pull(b, part, s, x, At(part, x)))
  {
    var moved := part[x := c];
    PotentialSplit(b, part, s, x);
    PotentialSplit(b, moved, s, x);
    PotentialExt(b, part, moved, s - {x});
    SumExt(s, Towards(b, part, x, c), Towards(b, moved, x, c));
  }

  lemma PullOfSeparate<T(!new)>(b: Matrix<T>, part: map<T, int>, s: set<T>, t: set<T>, x: T)
    requires x in t && forall u :: u in s ==> At(part, u) != At(part, x)
    ensures Pull(b, part, s + t, x, At(part, x)) == Pull(b, part, t, x, At(part, x))
  {
    SumSubset(t, s + t, Towards(b, part, x, At(part, x)));
  }

  /** Node sets that share no community do not influence each other. */
  lemma {:induction false} PotentialOfSeparate<T(!new)>(b: Matrix<T>, part: map<T, int>, s: set<T>, t: set<T>)
    requires s !! t && Symmetric(b, s + t)
    requires forall u, v :: u in s && v in t ==> At(part, u) != At(part, v)
    ensures Potential(b, part, s + t) == Potential(b, part, s) + Potential(b, part, t)
    decreases t
  {
    if t == {} {
      assert s + t == s;
    } else {
      var x :| x in t;
      PullOfSeparate(b, part, s, t, x);
      hide Potential, Pull;
      PotentialSplit(b, part, s + t, x);
      PotentialSplit(b, part, t, x);
      assert s + t - {x} == s + (t - {x});
      PotentialOfSeparate(b, part, s, t - {x});
    }
  }

  ghost function Members<T(!new)>(part: map<T, int>, c: int): set<T> {
    set u | u in part && part[u] == c
  }

  /** `groups` lists the members of every community that has any. */
  ghost predicate IsGrouping<T(!new)>(groups: map<int, seq<T>>, part: map<T, int>) {
    && (forall u :: u in part ==> part[u] in groups)
    && (forall c :: c in groups ==> groups[c] != [] && IsListing(groups[c], Members(part, c)))
  }

  /** Go's `groups[c] = append(groups[c], u)`. */
  function Append<T>(groups: map<int, seq<T>>, c: int, u: T): map<int, seq<T>> {
    groups[c := (if c in groups then groups[c] else []) + [u]]
  }

  lemma AppendKeepsGrouping<T(!new)>(groups: map<int, seq<T>>, part: map<T, int>, u: T, c: int)
    requires IsGrouping(groups, part) && u !in part
    ensures IsGrouping(Append(groups, c, u), part[u := c])
  {
    var groups', part' := Append(groups, c, u), part[u := c];
    forall d | d in groups' ensures groups'[d] != [] && IsListing(groups'[d], Members(part', d)) {
      if d == c {
        assert Members(part', c) == Members(part, c) + {u};
        if c !in groups {
          assert Members(part, c) == {};
        }
      } else {
        assert Members(part', d) == Members(part, d);
      }
    }
  }

  /** The partition of the nodes seen so far. */
  ghost function PartOf<T(!new)>(part: map<T, int>, us: seq<T>): map<T, int> {
    map u | u in us && u in part :: part[u]
  }

  lemma PartOfAll<T(!new)>(part: map<T, int>, us: seq<T>)
    requires IsListing(us, part.Keys)
    ensures PartOf(part, us) == part
  {
    assert forall u :: u in part ==> u in part.Keys && u in us;
  }

  lemma NothingGrouped<T(!new)>(part: map<T, int>)
    ensures IsGrouping(map[], PartOf(part, []))
  {
    assert PartOf(part, []).Keys == {};
  }

  lemma GroupedNext<T(!new)>(groups: map<int, seq<T>>, part: map<T, int>, ids: seq<T>, i: nat)
    requires i < |ids| && ids[i] in part && ids[i] !in ids[..i] && ids[..i + 1] == ids[..i] + [ids[i]]
    requires IsGrouping(groups, PartOf(part, ids[..i]))
    ensures IsGrouping(Append(groups, part[ids[i]], ids[i]), PartOf(part, ids[..i + 1]))
  {
    var done := PartOf(part, ids[..i]);
    AppendKeepsGrouping(groups, done, ids[i], part[ids[i]]);
    assert done[ids[i] := part[ids[i]]] == PartOf(part, ids[..i + 1]);
  }

  /** Go's range over `nodeToCommunity`, appending every node to the list of
      its community. */
  method GroupByCommunity<T(==,!new)>(part: map<T, int>) returns (groups: map<int, seq<T>>)
    ensures IsGrouping(groups, part)
  {
    groups := map[];
    var ids := ListOf(part.Keys);
    ListingSteps(ids, part.Keys);
    NothingGrouped(part);
    hide *;
    for i := 0 to |ids|
      invariant IsGrouping(groups, PartOf(part, ids[..i]))
    {
      GroupedNext(groups, part, ids, i);
      groups := Append(groups, part[ids[i]], ids[i]);
    }
    assert ids[..|ids|] == ids;
    assert PartOf(part, ids) == part by { PartOfAll(part, ids); }
  }

  /** No two nodes share a community. */
  ghost predicate AllSeparate<T(!new)>(part: map<T, int>) {
    forall u, v :: u in part && v in part && part[u] == part[v] ==> u == v
  }

  lemma ListingOfOne<T(!new)>(xs: seq<T>, u: T)
    requires IsListing(xs, {u})
    ensures xs == [u]
  {
    assert u in xs;
    var last := |xs| - 1;
    assert xs[0] in xs && xs[last] in xs;
    assert xs[0] == xs[last];
  }

  lemma SeparateGroup<T(!new)>(g: map<int, seq<T>>, part: map<T, int>, c: int)
    requires AllSeparate(part) && IsGrouping(g, part)
    ensures c in g ==> exists u :: u in part && part[u] == c && g[c] == [u]
    ensures forall u :: u in part && part[u] == c ==> c in g && g[c] == [u]
  {
    if c in g {
      var u := g[c][0];
      assert u in g[c] && u in Members(part, c);
      assert Members(part, c) == {u};
      ListingOfOne(g[c], u);
    }
  }

  /** Separate nodes can be grouped in only one way, so the shortcut for graphs
      without weight and the ordinary grouping agree. */
  lemma GroupingOfSeparateIsUnique<T(!new)>(g: map<int, seq<T>>, h: map<int, seq<T>>, part: map<T, int>)
    requires AllSeparate(part) && IsGrouping(g, part) && IsGrouping(h, part)
    ensures g == h
  {
    forall c | c in g || c in h ensures c in g && c in h && g[c] == h[c] {
      SeparateGroup(g, part, c);
      SeparateGroup(h, part, c);
    }
  }
}
