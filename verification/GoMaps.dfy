/** Reading and ranging over maps the way Go does. */
module GoMaps {
  import opened Sums

  /** Go's map read: a missing key reads as zero. */
  function At<K>(m: map<K, int>, k: K): int {
    if k in m then m[k] else 0
  }

  ghost predicate IsListing<T(!new)>(xs: seq<T>, s: set<T>) {
    && (forall x :: x in xs <==> x in s)
    && (forall i, j :: 0 <= i < j < |xs| ==> xs[i] != xs[j])
  }

  /** Go's range over a map: every element once, in an unspecified order. */
  method ListOf<T(==,!new)>(s: set<T>) returns (xs: seq<T>)
    ensures IsListing(xs, s)
  {
    xs := [];
    var rest := s;
    while rest != {}
      invariant rest <= s
      invariant IsListing(xs, s - rest)
      decreases rest
    {
      var x :| x in rest;
      xs := xs + [x];
      rest := rest - {x};
    }
  }

  /** Walking along a listing: every element is new. */
  lemma ListingSteps<T(!new)>(xs: seq<T>, s: set<T>)
    requires IsListing(xs, s)
    ensures xs[..0] == [] && xs[..|xs|] == xs
    ensures forall i :: 0 <= i < |xs| ==> xs[i] in s && xs[i] !in xs[..i] && xs[..i + 1] == xs[..i] + [xs[i]]
  {
  }

  lemma {:induction false} ListingCount<T(!new)>(xs: seq<T>, s: set<T>, x: T)
    requires IsListing(xs, s)
    ensures multiset(xs)[x] == if x in s then 1 else 0
    decreases |xs|
  {
    if x in xs {
      var i :| 0 <= i < |xs| && xs[i] == x;
      assert xs == xs[..i] + [x] + xs[i + 1..];
      assert x !in xs[..i] && x !in xs[i + 1..];
    }
  }

  lemma {:induction false} ListingSize<T(!new)>(xs: seq<T>, s: set<T>)
    requires IsListing(xs, s)
    ensures |xs| == |s|
    decreases |xs|
  {
    if xs == [] {
      assert forall x :: x !in s;
      assert s == {};
    } else {
      var n := |xs| - 1;
      var x := xs[n];
      assert xs == xs[..n] + [x];
      assert IsListing(xs[..n], s - {x});
      ListingSize(xs[..n], s - {x});
      assert s == s - {x} + {x};
    }
  }

  /** A listing adds up to the sum over the set it lists. */
  lemma ListingSum<T(!new)>(xs: seq<T>, s: set<T>, f: T -> int)
    requires IsListing(xs, s)
    ensures ListSum(xs, f) == Sum(s, f)
  {
    ListSumByCount(xs, s, f);
    forall x | x in s ensures multiset(xs)[x] * f(x) == f(x) {
      ListingCount(xs, s, x);
    }
    SumExt(s, Counted(xs, f), f);
  }

  lemma {:induction false} RangeSize(s: set<int>, n: nat)
    requires forall i :: i in s <==> 0 <= i < n
    ensures |s| == n
  {
    if n == 0 {
      assert forall i :: i !in s;
      assert s == {};
    } else {
      RangeSize(s - {n - 1}, n - 1);
    }
  }

  /** A map keyed 0, 1, .. n-1 has n entries. */
  lemma MapSize<T>(m: map<int, T>, n: nat)
    requires forall i :: i in m <==> 0 <= i < n
    ensures |m| == n
  {
    RangeSize(m.Keys, n);
  }
}
