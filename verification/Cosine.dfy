/** Cosine similarity of two vectors of any lengths, over exact reals. */
module Cosine {
  import opened RealSums
  import opened Wrappers

  /** A coordinate; beyond the end of the vector it is zero. */
  function Coordinate(v: seq<real>, i: nat): real {
    if i < |v| then v[i] else 0.0
  }

  /** The inner product of the first `n` coordinates. */
  function Inner(v: seq<real>, w: seq<real>, n: nat): real {
    if n == 0 then 0.0 else Inner(v, w, n - 1) + Coordinate(v, n - 1) * Coordinate(w, n - 1)
  }

  /** The product of two coordinates, where both vectors have one. */
  ghost function ProductAt(v: seq<real>, w: seq<real>): int -> real {
    (i: int) => if 0 <= i < |v| && i < |w| then v[i] * w[i] else 0.0
  }

  ghost function Below(n: nat): (s: set<int>)
    ensures forall i :: i in s <==> 0 <= i < n
  {
    if n == 0 then {} else Below(n - 1) + {n - 1}
  }

  lemma ZeroProduct(x: real, y: real)
    ensures x == 0.0 || y == 0.0 ==> x * y == 0.0
  {
  }

  /** The sum of all coordinates' products. */
  lemma {:induction false} InnerIsSum(v: seq<real>, w: seq<real>, n: nat)
    ensures Inner(v, w, n) == RealSum(Below(n), ProductAt(v, w))
  {
    if n > 0 {
      InnerIsSum(v, w, n - 1);
      RealSumPick(Below(n), ProductAt(v, w), n - 1);
      assert Below(n) - {n - 1} == Below(n - 1);
      ZeroProduct(Coordinate(v, n - 1), Coordinate(w, n - 1));
    }
  }

  function Longer(v: seq<real>, w: seq<real>): nat {
    if |v| > |w| then |v| else |w|
  }

  /** The accumulating loop, with its separate cases for the part where only one
      vector has coordinates left. */
  method Accumulate(listA: seq<real>, listB: seq<real>) returns (sumA: real, sumB: real, sumC: real)
    ensures sumA == Inner(listA, listB, Longer(listA, listB))
    ensures sumB == Inner(listA, listA, Longer(listA, listB))
    ensures sumC == Inner(listB, listB, Longer(listA, listB))
  {
    var count, lenA, lenB := 0, |listA|, |listB|;
    if lenA > lenB {
      count := lenA;
    } else {
      count := lenB;
    }
    sumA, sumB, sumC := 0.0, 0.0, 0.0;
    for i := 0 to count
      invariant sumA == Inner(listA, listB, i)
      invariant sumB == Inner(listA, listA, i)
      invariant sumC == Inner(listB, listB, i)
    {
      if i >= lenA {
        sumC := sumC + listB[i] * listB[i];
        continue;
      }
      if i >= lenB {
        sumB := sumB + listA[i] * listA[i];
        continue;
      }
      sumA := sumA + listA[i] * listB[i];
      sumB := sumB + listA[i] * listA[i];
      sumC := sumC + listB[i] * listB[i];
    }
  }

  lemma SquareNonNegative(x: real)
    ensures x * x >= 0.0
  {
  }

  lemma {:induction false} NormNonNegative(v: seq<real>, n: nat)
    ensures Inner(v, v, n) >= 0.0
  {
    if n > 0 {
      NormNonNegative(v, n - 1);
      SquareNonNegative(Coordinate(v, n - 1));
    }
  }

  lemma ExpandSquare(x: real, y: real, a: real, b: real)
    ensures (x * a - y * b) * (x * a - y * b) == x * x * (a * a) - 2.0 * x * y * (a * b) + y * y * (b * b)
  {
  }

  lemma CombinationStep(x: real, y: real, p: real, q: real, r: real, aa: real, ab: real, bb: real)
    ensures x * x * (p + aa) - 2.0 * x * y * (q + ab) + y * y * (r + bb)
         == (x * x * p - 2.0 * x * y * q + y * y * r) + (x * x * aa - 2.0 * x * y * ab + y * y * bb)
  {
  }

  /** The sum of the squares of x times v minus y times w, multiplied out. */
  lemma {:induction false} CombinationNonNegative(v: seq<real>, w: seq<real>, x: real, y: real, n: nat)
    ensures x * x * Inner(v, v, n) - 2.0 * x * y * Inner(v, w, n) + y * y * Inner(w, w, n) >= 0.0
  {
    if n > 0 {
      CombinationNonNegative(v, w, x, y, n - 1);
      var a, b := Coordinate(v, n - 1), Coordinate(w, n - 1);
      SquareNonNegative(x * a - y * b);
      ExpandSquare(x, y, a, b);
      CombinationStep(x, y, Inner(v, v, n - 1), Inner(v, w, n - 1), Inner(w, w, n - 1), a * a, a * b, b * b);
    }
  }

  lemma ProductOfNegatives(x: real, y: real)
    requires x < 0.0 && y < 0.0
    ensures x * y > 0.0
  {
  }

  lemma ProductPositive(x: real, y: real)
    requires x > 0.0 && y > 0.0
    ensures x * y > 0.0
  {
  }

  lemma SquarePositive(b: real)
    requires b != 0.0
    ensures b * b > 0.0
  {
    if b > 0.0 {
      ProductPositive(b, b);
    } else {
      ProductOfNegatives(b, b);
    }
  }

  lemma {:induction false} ZeroVector(v: seq<real>, w: seq<real>, n: nat)
    requires Inner(w, w, n) == 0.0
    ensures Inner(v, w, n) == 0.0
  {
    if n > 0 {
      var b := Coordinate(w, n - 1);
      NormNonNegative(w, n - 1);
      SquareNonNegative(b);
      ZeroVector(v, w, n - 1);
      if b != 0.0 {
        SquarePositive(b);
      }
    }
  }

  lemma FactorNonNegative(r: real, t: real)
    requires r > 0.0 && r * t >= 0.0
    ensures t >= 0.0
  {
  }

  lemma Discriminant(p: real, q: real, r: real)
    requires r > 0.0 && r * r * p - 2.0 * r * q * q + q * q * r >= 0.0
    ensures q * q <= p * r
  {
    assert r * r * p - 2.0 * r * q * q + q * q * r == r * (p * r - q * q);
    FactorNonNegative(r, p * r - q * q);
  }

  /** Cauchy-Schwarz for the accumulators. */
  lemma CauchySchwarz(v: seq<real>, w: seq<real>, n: nat)
    ensures Inner(v, w, n) * Inner(v, w, n) <= Inner(v, v, n) * Inner(w, w, n)
  {
    hide *;
    var p, q, r := Inner(v, v, n), Inner(v, w, n), Inner(w, w, n);
    NormNonNegative(w, n);
    if r == 0.0 {
      ZeroVector(v, w, n);
    } else {
      CombinationNonNegative(v, w, r, q, n);
      Discriminant(p, q, r);
    }
  }

  lemma {:induction false} InnerSymmetric(v: seq<real>, w: seq<real>, n: nat)
    ensures Inner(v, w, n) == Inner(w, v, n)
  {
    if n > 0 {
      InnerSymmetric(v, w, n - 1);
    }
  }

  /** Coordinates past both ends add nothing, so padding with zeros changes no
      accumulator. */
  lemma {:induction false} PaddingIsHarmless(v: seq<real>, w: seq<real>, m: nat, n: nat)
    requires Longer(v, w) <= m <= n
    ensures Inner(v, w, m) == Inner(v, w, n)
    decreases n - m
  {
    if m < n {
      PaddingIsHarmless(v, w, m + 1, n);
    }
  }

  /** The vector made `n` long by appending zeros. */
  function Padded(v: seq<real>, n: nat): seq<real>
    requires |v| <= n
  {
    v + seq(n - |v|, _ => 0.0)
  }

  /** The mixed-length loop computes what it would for the zero-padded vectors. */
  lemma {:induction false} PaddedInner(v: seq<real>, w: seq<real>, m: nat, n: nat)
    requires |v| <= n && |w| <= n
    ensures Inner(Padded(v, n), Padded(w, n), m) == Inner(v, w, m)
  {
    if m > 0 {
      PaddedInner(v, w, m - 1, n);
      assert Coordinate(Padded(v, n), m - 1) == Coordinate(v, m - 1);
      assert Coordinate(Padded(w, n), m - 1) == Coordinate(w, m - 1);
    }
  }

  /** A square root function on the non-negative reals. */
  ghost predicate IsSqrt(sqrt: real -> real) {
    forall x :: x >= 0.0 ==> sqrt(x) >= 0.0 && sqrt(x) * sqrt(x) == x
  }

  lemma Root(sqrt: real -> real, x: real)
    requires IsSqrt(sqrt) && x >= 0.0
    ensures sqrt(x) >= 0.0 && sqrt(x) * sqrt(x) == x
  {
  }

  predicate AllZero(v: seq<real>) {
    forall i :: 0 <= i < |v| ==> v[i] == 0.0
  }

  lemma ZeroSum(p: real, q: real)
    requires p >= 0.0 && q >= 0.0 && p + q == 0.0
    ensures p == 0.0 && q == 0.0
  {
  }

  lemma NonZeroProduct(x: real, y: real, product: real)
    requires product == x * y && x != 0.0 && y != 0.0
    ensures product != 0.0
  {
  }

  lemma {:induction false} ZeroCoordinates(v: seq<real>, n: nat)
    requires Inner(v, v, n) == 0.0
    ensures forall i :: 0 <= i < n ==> Coordinate(v, i) == 0.0
  {
    if n > 0 {
      var b := Coordinate(v, n - 1);
      NormNonNegative(v, n - 1);
      SquareNonNegative(b);
      ZeroSum(Inner(v, v, n - 1), b * b);
      ZeroCoordinates(v, n - 1);
      if b != 0.0 {
        NonZeroProduct(b, b, Inner(v, v, n) - Inner(v, v, n - 1));
      }
    }
  }

  lemma {:induction false} ZeroNorm(v: seq<real>, n: nat)
    requires AllZero(v)
    ensures Inner(v, v, n) == 0.0
  {
    if n > 0 {
      ZeroNorm(v, n - 1);
    }
  }

  /** Only the zero vector has norm zero. */
  lemma ZeroNormIff(v: seq<real>, n: nat)
    requires |v| <= n
    ensures Inner(v, v, n) == 0.0 <==> AllZero(v)
  {
    if Inner(v, v, n) == 0.0 {
      ZeroCoordinates(v, n);
      forall i | 0 <= i < |v| ensures v[i] == 0.0 {
        assert Coordinate(v, i) == 0.0;
      }
    } else if AllZero(v) {
      ZeroNorm(v, n);
      assert false;
    }
  }

  /** The cosine of two vectors: their inner product over the product of their
      lengths, and nothing when one of them is all zeros and the quotient is not
      a number. */
  ghost predicate IsCosine(v: seq<real>, w: seq<real>, sqrt: real -> real, similarity: Option<real>) {
    var n := Longer(v, w);
    var lengths := sqrt(Inner(v, v, n)) * sqrt(Inner(w, w, n));
    if AllZero(v) || AllZero(w) then
      similarity.None?
    else
      lengths > 0.0 && similarity.Some? && similarity.value * lengths == Inner(v, w, n)
  }

  lemma ZeroFactor(x: real, y: real)
    ensures x == 0.0 || y == 0.0 ==> x * y == 0.0
  {
  }

  lemma Regroup(s: real, t: real)
    ensures (s * t) * (s * t) == (s * s) * (t * t)
  {
  }

  lemma SquareOfProduct(s: real, t: real, b: real, c: real)
    requires s * s == b && t * t == c
    ensures (s * t) * (s * t) == b * c
  {
    Regroup(s, t);
  }

  lemma DifferenceOfSquares(x: real, y: real, less: real, more: real)
    requires less == x - y && more == x + y
    ensures less * more == x * x - y * y
  {
  }

  lemma AtMostRoot(a: real, d: real)
    requires d >= 0.0 && a * a <= d * d
    ensures -d <= a <= d
  {
    var less, more := a - d, a + d;
    DifferenceOfSquares(a, d, less, more);
    if a > d {
      ProductPositive(less, more);
    } else if a < -d {
      ProductOfNegatives(less, more);
    }
  }

  lemma DivideWithin(a: real, d: real)
    requires d > 0.0 && -d <= a <= d
    ensures -1.0 <= a / d <= 1.0 && a / d * d == a
  {
  }

  lemma QuotientWithin(a: real, d: real, square: real)
    requires d > 0.0 && d * d == square && a * a <= square
    ensures -1.0 <= a / d <= 1.0 && a / d * d == a
  {
    AtMostRoot(a, d);
    DivideWithin(a, d);
  }

  lemma SimilarityBounds(a: real, b: real, c: real, s: real, t: real)
    requires s >= 0.0 && t >= 0.0 && s * s == b && t * t == c
    requires a * a <= b * c
    ensures s * t >= 0.0
    ensures s * t == 0.0 <==> b == 0.0 || c == 0.0
    ensures s * t != 0.0 ==> -1.0 <= a / (s * t) <= 1.0 && a / (s * t) * (s * t) == a
  {
    if s == 0.0 || t == 0.0 {
      ZeroFactor(s, t);
      ZeroFactor(s, s);
      ZeroFactor(t, t);
    } else {
      ProductPositive(s, t);
      ProductPositive(s, s);
      ProductPositive(t, t);
      SquareOfProduct(s, t, b, c);
      QuotientWithin(a, s * t, b * c);
    }
  }

  method CosineSimilarity(listA: seq<real>, listB: seq<real>, sqrt: real -> real) returns (similarity: Option<real>)
    requires IsSqrt(sqrt)
    ensures IsCosine(listA, listB, sqrt, similarity)
    ensures similarity.Some? ==> -1.0 <= similarity.value <= 1.0
  {
    ghost var n := Longer(listA, listB);
    assert |listA| <= n && |listB| <= n;
    hide IsSqrt, Inner, Longer, AllZero;
    ZeroNormIff(listA, n);
    ZeroNormIff(listB, n);
    var sumA, sumB, sumC := Accumulate(listA, listB);
    NormNonNegative(listA, n);
    NormNonNegative(listB, n);
    CauchySchwarz(listA, listB, n);
    Root(sqrt, sumB);
    Root(sqrt, sumC);
    var rootB, rootC := sqrt(sumB), sqrt(sumC);
    SimilarityBounds(sumA, sumB, sumC, rootB, rootC);
    if rootB * rootC == 0.0 {
      return None;
    }
    similarity := Some(sumA / (rootB * rootC));
  }

  lemma QuotientIsUnique(x: real, y: real, d: real)
    requires d > 0.0 && x * d == y * d
    ensures x == y
  {
  }

  lemma SimilarityIsSymmetric(v: seq<real>, w: seq<real>, sqrt: real -> real, forth: Option<real>, back: Option<real>)
    requires IsCosine(v, w, sqrt, forth) && IsCosine(w, v, sqrt, back)
    ensures forth == back
  {
    hide Inner;
    var n := Longer(v, w);
    InnerSymmetric(v, w, n);
    if forth.Some? {
      QuotientIsUnique(forth.value, back.value, sqrt(Inner(v, v, n)) * sqrt(Inner(w, w, n)));
    }
  }

  lemma PaddedZero(v: seq<real>, n: nat)
    requires |v| <= n
    ensures AllZero(Padded(v, n)) <==> AllZero(v)
  {
    if AllZero(Padded(v, n)) {
      forall i | 0 <= i < |v| ensures v[i] == 0.0 {
        assert Padded(v, n)[i] == v[i];
      }
    }
  }

  lemma PaddedAccumulator(v: seq<real>, w: seq<real>, m: nat, n: nat)
    requires |v| <= m <= n && |w| <= m
    ensures Inner(Padded(v, n), Padded(w, n), n) == Inner(v, w, m)
  {
    PaddedInner(v, w, n, n);
    PaddingIsHarmless(v, w, m, n);
  }

  /** The similarity of vectors of different lengths is that of the same vectors
      filled up with zeros to any common length. */
  lemma SimilarityIgnoresPadding(v: seq<real>, w: seq<real>, n: nat, sqrt: real -> real, plain: Option<real>,
                                 padded: Option<real>)
    requires |v| <= n && |w| <= n
    requires IsCosine(v, w, sqrt, plain) && IsCosine(Padded(v, n), Padded(w, n), sqrt, padded)
    ensures plain == padded
  {
    PaddedZero(v, n);
    PaddedZero(w, n);
    hide Inner, AllZero;
    var m := Longer(v, w);
    PaddedAccumulator(v, w, m, n);
    PaddedAccumulator(v, v, m, n);
    PaddedAccumulator(w, w, m, n);
    if plain.Some? {
      QuotientIsUnique(plain.value, padded.value, sqrt(Inner(v, v, m)) * sqrt(Inner(w, w, m)));
    }
  }
}
