/** Finite sums of integers over sets.

    Go visits maps in an arbitrary order, so every total the program
    accumulates from a map is specified here as a sum over a set, which has
    no order at all. */
module Sums {
  ghost function Sum<T>(s: set<T>, f: T -> int): int {
    if s == {} then 0 else
      var x :| x in s;
      f(x) + Sum(s - {x}, f)
  }

  /** Any element may be taken out first. */
  lemma {:induction false} SumPick<T>(s: set<T>, f: T -> int, x: T)
    requires x in s
    ensures Sum(s, f) == f(x) + Sum(s - {x}, f)
    decreases s
  {
    var y :| y in s && Sum(s, f) == f(y) + Sum(s - {y}, f);
    if x != y {
      SumPick(s - {y}, f, x);
      SumPick(s - {x}, f, y);
      assert s - {y} - {x} == s - {x} - {y};
    }
  }

  lemma {:induction false} SumExt<T>(s: set<T>, f: T -> int, g: T -> int)
    requires forall x :: x in s ==> f(x) == g(x)
    ensures Sum(s, f) == Sum(s, g)
    decreases s
  {
    if s != {} {
      var x :| x in s;
      SumPick(s, f, x);
      SumPick(s, g, x);
      SumExt(s - {x}, f, g);
    }
  }

  lemma {:induction false} SumAdd<T>(s: set<T>, f: T -> int, g: T -> int, h: T -> int)
    requires forall x :: x in s ==> h(x) == f(x) + g(x)
    ensures Sum(s, h) == Sum(s, f) + Sum(s, g)
    decreases s
  {
    if s != {} {
      var x :| x in s;
      SumPick(s, f, x);
      SumPick(s, g, x);
      SumPick(s, h, x);
      SumAdd(s - {x}, f, g, h);
    }
  }

  ghost function Times<T>(k: int, f: T -> int): T -> int {
    (x: T) => k * f(x)
  }

  lemma Distribute(k: int, x: int, y: int)
    ensures k * (x + y) == k * x + k * y
  {
  }

  lemma {:induction false} SumTimes<T>(s: set<T>, k: int, f: T -> int)
    ensures Sum(s, Times(k, f)) == k * Sum(s, f)
    decreases s
  {
    if s != {} {
      var x :| x in s;
      SumPick(s, f, x);
      SumPick(s, Times(k, f), x);
      SumTimes(s - {x}, k, f);
      Distribute(k, f(x), Sum(s - {x}, f));
    }
  }

  lemma {:induction false} SumCombine<T>(s: set<T>, a: int, f: T -> int, b: int, g: T -> int, h: T -> int)
    requires forall x :: x in s ==> h(x) == a * f(x) - b * g(x)
    ensures Sum(s, h) == a * Sum(s, f) - b * Sum(s, g)
    decreases s
  {
    if s != {} {
      var x :| x in s;
      SumPick(s, f, x);
      SumPick(s, g, x);
      SumPick(s, h, x);
      SumCombine(s - {x}, a, f, b, g, h);
      Distribute(a, f(x), Sum(s - {x}, f));
      Distribute(b, g(x), Sum(s - {x}, g));
    }
  }

  lemma {:induction false} SumLeq<T>(s: set<T>, f: T -> int, g: T -> int)
    requires forall x :: x in s ==> f(x) <= g(x)
    ensures Sum(s, f) <= Sum(s, g)
    decreases s
  {
    if s != {} {
      var x :| x in s;
      SumPick(s, f, x);
      SumPick(s, g, x);
      SumLeq(s - {x}, f, g);
    }
  }

  lemma {:induction false} SumZero<T>(s: set<T>, f: T -> int)
    requires forall x :: x in s ==> f(x) == 0
    ensures Sum(s, f) == 0
    decreases s
  {
    if s != {} {
      var x :| x in s;
      SumPick(s, f, x);
      SumZero(s - {x}, f);
    }
  }

  lemma SumNonNegative<T>(s: set<T>, f: T -> int)
    requires forall x :: x in s ==> f(x) >= 0
    ensures Sum(s, f) >= 0
  {
    var zero := (x: T) => 0;
    SumLeq(s, zero, f);
    SumZero(s, zero);
  }

  /** Only one element contributes. */
  lemma SumSingle<T>(s: set<T>, f: T -> int, x: T)
    requires x in s
    requires forall y :: y in s && y != x ==> f(y) == 0
    ensures Sum(s, f) == f(x)
  {
    SumPick(s, f, x);
    SumZero(s - {x}, f);
  }

  /** A subset on whose complement the summand vanishes has the same sum. */
  lemma {:induction false} SumSubset<T>(s: set<T>, t: set<T>, f: T -> int)
    requires s <= t
    requires forall y :: y in t - s ==> f(y) == 0
    ensures Sum(t, f) == Sum(s, f)
    decreases t - s
  {
    if t - s == {} {
      assert forall x :: x in t ==> x in s || x in t - s;
      assert t == s;
    } else {
      var x :| x in t - s;
      SumPick(t, f, x);
      SumSubset(s, t - {x}, f);
    }
  }

  /** A table seen along one of its rows, and along one of its columns. */
  ghost function RowOf<S, T>(f: (S, T) -> int, x: S): T -> int {
    (y: T) => f(x, y)
  }

  ghost function ColumnOf<S, T>(f: (S, T) -> int, y: T): S -> int {
    (x: S) => f(x, y)
  }

  /** Sums may be exchanged. `rows` and `columns` name the inner sums. */
  lemma {:induction false} SumSwap<S, T>(s: set<S>, t: set<T>, f: (S, T) -> int, rows: S -> int, columns: T -> int)
    requires forall x :: x in s ==> rows(x) == Sum(t, RowOf(f, x))
    requires forall y :: y in t ==> columns(y) == Sum(s, ColumnOf(f, y))
    ensures Sum(s, rows) == Sum(t, columns)
    decreases s
  {
    if s == {} {
      forall y | y in t ensures columns(y) == 0 {
        SumZero(s, ColumnOf(f, y));
      }
      SumZero(t, columns);
    } else {
      var a :| a in s;
      SumPick(s, rows, a);
      var others := (y: T) => Sum(s - {a}, ColumnOf(f, y));
      forall y | y in t ensures columns(y) == RowOf(f, a)(y) + others(y) {
        SumPick(s, ColumnOf(f, y), a);
      }
      SumAdd(t, RowOf(f, a), others, columns);
      SumSwap(s - {a}, t, f, rows, others);
    }
  }

  /** The total of a list, in list order. */
  ghost function ListSum<T>(xs: seq<T>, f: T -> int): int {
    if xs == [] then 0 else ListSum(xs[..|xs| - 1], f) + f(xs[|xs| - 1])
  }

  ghost function Counted<T>(xs: seq<T>, f: T -> int): T -> int {
    (x: T) => multiset(xs)[x] * f(x)
  }

  /** A list's total depends only on how often each element occurs in it. */
  lemma {:induction false} ListSumByCount<T>(xs: seq<T>, s: set<T>, f: T -> int)
    requires forall x :: x in xs ==> x in s
    ensures ListSum(xs, f) == Sum(s, Counted(xs, f))
  {
    var counted := Counted(xs, f);
    if xs == [] {
      SumZero(s, counted);
    } else {
      var n := |xs| - 1;
      var front, last := xs[..n], xs[n];
      assert xs == front + [last];
      ListSumByCount(front, s, f);
      var before := Counted(front, f);
      var only := (x: T) => if x == last then f(x) else 0;
      forall x | x in s ensures counted(x) == before(x) + only(x) {
        assert multiset(xs)[x] == multiset(front)[x] + (if x == last then 1 else 0);
      }
      SumAdd(s, before, only, counted);
      SumSingle(s, only, last);
    }
  }
}
