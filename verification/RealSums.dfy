/** Finite sums of reals, over sets and over sequences. */
module RealSums {
  import opened GoMaps

  ghost function RealSum<T>(s: set<T>, f: T -> real): real {
    if s == {} then 0.0 else
      var x :| x in s;
      f(x) + RealSum(s - {x}, f)
  }

  lemma {:induction false} RealSumPick<T>(s: set<T>, f: T -> real, x: T)
    requires x in s
    ensures RealSum(s, f) == f(x) + RealSum(s - {x}, f)
    decreases s
  {
    var y :| y in s && RealSum(s, f) == f(y) + RealSum(s - {y}, f);
    if x != y {
      RealSumPick(s - {y}, f, x);
      RealSumPick(s - {x}, f, y);
      assert s - {y} - {x} == s - {x} - {y};
    }
  }

  lemma {:induction false} RealSumExt<T>(s: set<T>, f: T -> real, g: T -> real)
    requires forall x :: x in s ==> f(x) == g(x)
    ensures RealSum(s, f) == RealSum(s, g)
    decreases s
  {
    if s != {} {
      var x :| x in s;
      RealSumPick(s, f, x);
      RealSumPick(s, g, x);
      RealSumExt(s - {x}, f, g);
    }
  }

  ghost function SeqSum<T>(xs: seq<T>, f: T -> real): real {
    if xs == [] then 0.0 else SeqSum(xs[..|xs| - 1], f) + f(xs[|xs| - 1])
  }

  /** A listing adds up to the sum over the set it lists. */
  lemma {:induction false} ListingTotal<T(!new)>(xs: seq<T>, s: set<T>, f: T -> real)
    requires IsListing(xs, s)
    ensures SeqSum(xs, f) == RealSum(s, f)
    decreases |xs|
  {
    if xs == [] {
      assert forall x :: x !in s;
      assert s == {};
    } else {
      var n := |xs| - 1;
      var x := xs[n];
      assert xs == xs[..n] + [x];
      assert IsListing(xs[..n], s - {x});
      ListingTotal(xs[..n], s - {x}, f);
      RealSumPick(s, f, x);
    }
  }
}
