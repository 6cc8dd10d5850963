/** What the library sorts promise: a rearrangement in order. */
module Sorting {
  ghost predicate IsTotalPreorder<T(!new)>(leq: (T, T) -> bool) {
    && (forall a, b :: leq(a, b) || leq(b, a))
    && (forall a, b, c :: leq(a, b) && leq(b, c) ==> leq(a, c))
  }

  ghost predicate SortedBy<T>(xs: seq<T>, leq: (T, T) -> bool) {
    forall i, j :: 0 <= i < j < |xs| ==> leq(xs[i], xs[j])
  }

  lemma SortedAround<T>(xs: seq<T>, k: nat, x: T, leq: (T, T) -> bool)
    requires SortedBy(xs, leq) && k <= |xs|
    requires forall j :: 0 <= j < k ==> leq(xs[j], x)
    requires forall j :: k <= j < |xs| ==> leq(x, xs[j])
    ensures SortedBy(xs[..k] + [x] + xs[k..], leq)
  {
    var ys := xs[..k] + [x] + xs[k..];
    forall i, j | 0 <= i < j < |ys| ensures leq(ys[i], ys[j]) {
      assert i < k ==> ys[i] == xs[i];
      assert i > k ==> ys[i] == xs[i - 1];
      assert j < k ==> ys[j] == xs[j];
      assert j > k ==> ys[j] == xs[j - 1];
    }
  }

  method Insert<T(!new)>(xs: seq<T>, x: T, leq: (T, T) -> bool) returns (ys: seq<T>)
    requires IsTotalPreorder(leq) && SortedBy(xs, leq)
    ensures multiset(ys) == multiset(xs) + multiset{x} && SortedBy(ys, leq)
  {
    var k := |xs|;
    while k > 0 && !leq(xs[k - 1], x)
      invariant 0 <= k <= |xs|
      invariant forall j :: k <= j < |xs| ==> leq(x, xs[j])
    {
      k := k - 1;
    }
    forall j | 0 <= j < k ensures leq(xs[j], x) {
      assert j < k - 1 ==> leq(xs[j], xs[k - 1]);
    }
    assert xs == xs[..k] + xs[k..];
    ys := xs[..k] + [x] + xs[k..];
    SortedAround(xs, k, x, leq);
  }

  /** Only the contract is relied upon: how equal elements are arranged is open. */
  method Sort<T(!new)>(xs: seq<T>, leq: (T, T) -> bool) returns (sorted: seq<T>)
    requires IsTotalPreorder(leq)
    ensures multiset(sorted) == multiset(xs) && SortedBy(sorted, leq)
  {
    sorted := [];
    for i := 0 to |xs|
      invariant multiset(sorted) == multiset(xs[..i]) && SortedBy(sorted, leq)
    {
      assert xs[..i + 1] == xs[..i] + [xs[i]];
      sorted := Insert(sorted, xs[i], leq);
    }
    assert xs[..|xs|] == xs;
  }

  /** Go's order on strings. */
  predicate AtMost(a: string, b: string) {
    a == "" || (b != "" && (a[0] < b[0] || (a[0] == b[0] && AtMost(a[1..], b[1..]))))
  }

  ghost predicate FirstDiffer(a: string, b: string, i: int) {
    0 <= i < |a| && i < |b| && a[..i] == b[..i] && a[i] != b[i]
  }

  /** One string is the beginning of the other, or has the smaller character where
      the two first differ. */
  ghost predicate Precedes(a: string, b: string) {
    a <= b || exists i :: FirstDiffer(a, b, i) && a[i] < b[i]
  }

  /** No two strings in the list are out of order. */
  ghost predicate InOrder(xs: seq<string>) {
    forall i, j :: 0 <= i < j < |xs| ==> Precedes(xs[i], xs[j])
  }

  lemma {:induction false} AtMostByFirstDifference(a: string, b: string, i: nat)
    requires i <= |a| && i <= |b| && a[..i] == b[..i]
    ensures i == |a| ==> AtMost(a, b)
    ensures i < |a| && i < |b| && a[i] < b[i] ==> AtMost(a, b) && !AtMost(b, a)
  {
    if i > 0 {
      assert a[..i][0] == b[..i][0];
      assert a[1..][..i - 1] == a[..i][1..] == b[..i][1..] == b[1..][..i - 1];
      AtMostByFirstDifference(a[1..], b[1..], i - 1);
    }
  }

  lemma {:induction false} CommonPrefix(a: string, b: string) returns (i: nat)
    ensures i <= |a| && i <= |b| && a[..i] == b[..i]
    ensures i < |a| && i < |b| ==> a[i] != b[i]
  {
    if a == "" || b == "" || a[0] != b[0] {
      i := 0;
    } else {
      var j := CommonPrefix(a[1..], b[1..]);
      i := j + 1;
      assert a[..i] == [a[0]] + a[1..][..j] && b[..i] == [b[0]] + b[1..][..j];
    }
  }

  lemma {:induction false} LongerIsNotAtMost(a: string, b: string)
    requires b <= a && b != a
    ensures !AtMost(a, b)
  {
    if b != "" {
      LongerIsNotAtMost(a[1..], b[1..]);
    }
  }

  lemma AtMostPrecedes(a: string, b: string, i: nat)
    requires AtMost(a, b)
    requires i <= |a| && i <= |b| && a[..i] == b[..i] && (i < |a| && i < |b| ==> a[i] != b[i])
    ensures Precedes(a, b)
  {
    if i == |a| {
      assert a == b[..i];
    } else if i == |b| {
      LongerIsNotAtMost(a, b);
    } else {
      AtMostByFirstDifference(b, a, i);
      assert FirstDiffer(a, b, i);
    }
  }

  /** Go's order is the order by first difference. */
  lemma AtMostIff(a: string, b: string)
    ensures AtMost(a, b) <==> Precedes(a, b)
  {
    var i := CommonPrefix(a, b);
    AtMostByFirstDifference(a, b, i);
    AtMostByFirstDifference(b, a, i);
    if AtMost(a, b) {
      AtMostPrecedes(a, b, i);
    }
    if a <= b {
      AtMostByFirstDifference(a, b, |a|);
    } else if j :| FirstDiffer(a, b, j) && a[j] < b[j] {
      AtMostByFirstDifference(a, b, j);
    }
  }

  lemma SortedIsInOrder(xs: seq<string>)
    ensures SortedBy(xs, AtMost) <==> InOrder(xs)
  {
    forall i, j | 0 <= i < j < |xs| ensures AtMost(xs[i], xs[j]) <==> Precedes(xs[i], xs[j]) {
      AtMostIff(xs[i], xs[j]);
    }
  }

  lemma {:induction false} AtMostTotal(a: string, b: string)
    ensures AtMost(a, b) || AtMost(b, a)
  {
    if a != "" && b != "" {
      AtMostTotal(a[1..], b[1..]);
    }
  }

  lemma {:induction false} AtMostTransitive(a: string, b: string, c: string)
    requires AtMost(a, b) && AtMost(b, c)
    ensures AtMost(a, c)
  {
    if a != "" && a[0] == b[0] && b[0] == c[0] {
      AtMostTransitive(a[1..], b[1..], c[1..]);
    }
  }

  lemma StringsAreOrdered()
    ensures IsTotalPreorder(AtMost)
  {
    forall a, b ensures AtMost(a, b) || AtMost(b, a) {
      AtMostTotal(a, b);
    }
    forall a, b, c | AtMost(a, b) && AtMost(b, c) ensures AtMost(a, c) {
      AtMostTransitive(a, b, c);
    }
  }

  predicate AtLeastAsLong<T>(a: seq<T>, b: seq<T>) {
    |a| >= |b|
  }
}
