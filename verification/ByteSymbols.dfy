/** The tokenizer's byte alphabet: a printable, space-free symbol for each of
    the 256 bytes. */
module ByteSymbols {
  import opened Bytes

  /** Bytes that stand for themselves. */
  predicate IsVisible(b: int) {
    33 <= b <= 126 || 161 <= b <= 172 || 174 <= b <= 255
  }

  /** How many of the numbers below `b` do not stand for themselves. */
  function Hidden(b: nat): (n: nat)
    ensures n <= b
  {
    if b == 0 then 0 else Hidden(b - 1) + if IsVisible(b - 1) then 0 else 1
  }

  /** The code point of a byte's symbol. */
  function SymbolCode(b: Byte): (c: nat)
    ensures c < 512
  {
    if IsVisible(b) then b else 256 + Hidden(b)
  }

  function Symbol(b: Byte): string {
    [SymbolCode(b) as char]
  }

  /** The three ranges of graphic characters in Latin-1, without the soft hyphen. */
  ghost predicate IsGraphic(a: int) {
    33 <= a <= 126 || 161 <= a <= 172 || 174 <= a <= 255
  }

  ghost function HiddenBelow(b: nat): set<int> {
    set a | 0 <= a < b && !IsGraphic(a)
  }

  lemma {:induction false} HiddenCounts(b: nat)
    ensures Hidden(b) == |HiddenBelow(b)|
  {
    if b == 0 {
      assert HiddenBelow(b) == {};
    } else {
      HiddenCounts(b - 1);
      assert HiddenBelow(b) == if IsVisible(b - 1) then HiddenBelow(b - 1) else HiddenBelow(b - 1) + {b - 1};
    }
  }

  /** Graphic bytes are their own symbols; the others get the code points from
      256 on, in ascending order. */
  lemma SymbolCodes(b: Byte)
    ensures SymbolCode(b) == if IsGraphic(b) then b else 256 + |HiddenBelow(b)|
  {
    HiddenCounts(b);
  }

  lemma {:induction false} HiddenGrows(a: nat, b: nat)
    requires a < b && !IsVisible(a)
    ensures Hidden(a) < Hidden(b)
  {
    if a < b - 1 {
      HiddenGrows(a, b - 1);
    }
  }

  lemma CharsDistinct(x: nat, y: nat)
    requires x < 512 && y < 512
    ensures x as char == y as char ==> x == y
  {
    assert (x as char) as int == x && (y as char) as int == y;
  }

  /** Different bytes have different symbols, none of them the space. */
  lemma SymbolsDistinct(a: Byte, b: Byte)
    ensures a != b ==> Symbol(a) != Symbol(b)
    ensures ' ' !in Symbol(a)
  {
    if a < b && !IsVisible(a) { HiddenGrows(a, b); }
    if b < a && !IsVisible(b) { HiddenGrows(b, a); }
    assert a != b ==> SymbolCode(a) != SymbolCode(b);
    CharsDistinct(SymbolCode(a), SymbolCode(b));
    CharsDistinct(SymbolCode(a), 32);
  }

  /** The two tables are inverse to each other: a bijection between the bytes
      and their symbols. */
  ghost predicate IsByteAlphabet(byteEncoder: map<int, string>, byteDecoder: map<string, int>) {
    && (forall b :: b in byteEncoder <==> 0 <= b < 256)
    && (forall b :: 0 <= b < 256 ==> byteEncoder[b] == Symbol(b))
    && (forall b :: 0 <= b < 256 ==> Symbol(b) in byteDecoder && byteDecoder[Symbol(b)] == b)
    && (forall s :: s in byteDecoder ==> 0 <= byteDecoder[s] < 256 && s == Symbol(byteDecoder[s]))
  }

  /** Appends first .. last to both lists. */
  method AppendRange(first: int, last: int, list0: seq<int>, list20: seq<int>) returns (list: seq<int>, list2: seq<int>)
    requires first <= last + 1
    ensures |list| - |list0| == |list2| - |list20| >= 0
    ensures list0 <= list && list20 <= list2
    ensures forall x :: x in list <==> x in list0 || first <= x <= last
    ensures list[|list0|..] == list2[|list20|..]
    ensures forall k :: |list0| <= k < |list| ==> first <= list[k] <= last
  {
    list, list2 := list0, list20;
    for i := first to last + 1
      invariant |list| - |list0| == |list2| - |list20| == i - first
      invariant list0 <= list && list20 <= list2
      invariant forall x :: x in list <==> x in list0 || first <= x < i
      invariant list[|list0|..] == list2[|list20|..]
      invariant forall k :: |list0| <= k < |list| ==> first <= list[k] <= last
    {
      ghost var before := list;
      list := list + [i];
      list2 := list2 + [i];
      assert list[|before|] == i;
    }
  }

  /** Pairs every byte with its symbol, in the order of the lists. */
  ghost predicate ArePaired(list: seq<int>, list2: seq<int>) {
    && |list| == |list2|
    && forall k :: 0 <= k < |list| ==> 0 <= list[k] < 256 && list2[k] == SymbolCode(list[k])
  }

  method AppendHidden(list0: seq<int>, list20: seq<int>) returns (list: seq<int>, list2: seq<int>)
    requires ArePaired(list0, list20) && forall x :: x in list0 <==> 0 <= x < 256 && IsVisible(x)
    ensures ArePaired(list, list2) && forall x :: x in list <==> 0 <= x < 256
  {
    list, list2 := list0, list20;
    var n := 0;
    for i := 0 to 256
      invariant ArePaired(list, list2)
      invariant forall x :: x in list <==> x in list0 || 0 <= x < i
      invariant n == Hidden(i)
    {
      if i !in list {
        ghost var before := list;
        list := list + [i];
        list2 := list2 + [256 + n];
        n := n + 1;
        assert list[|before|] == i;
      }
    }
  }

  method AppendMore(first: int, last: int, list0: seq<int>, list20: seq<int>) returns (list: seq<int>, list2: seq<int>)
    requires ArePaired(list0, list20)
    requires 0 <= first <= last < 256 && forall x :: first <= x <= last ==> IsVisible(x)
    ensures ArePaired(list, list2)
    ensures forall x :: x in list <==> x in list0 || first <= x <= last
  {
    list, list2 := AppendRange(first, last, list0, list20);
    forall k | 0 <= k < |list| ensures 0 <= list[k] < 256 && list2[k] == SymbolCode(list[k]) {
      if k < |list0| {
        assert list[k] == list0[k] && list2[k] == list20[k];
      } else {
        assert list[|list0|..][k - |list0|] == list2[|list20|..][k - |list0|];
      }
    }
  }

  method FillTables(list: seq<int>, list2: seq<int>)
    returns (byteEncoder: map<int, string>, byteDecoder: map<string, int>)
    requires ArePaired(list, list2) && forall x :: x in list <==> 0 <= x < 256
    ensures IsByteAlphabet(byteEncoder, byteDecoder)
  {
    byteEncoder, byteDecoder := map[], map[];
    for i := 0 to |list2|
      invariant forall b :: b in byteEncoder <==> b in list[..i]
      invariant forall b :: b in list[..i] ==> 0 <= b < 256 && byteEncoder[b] == Symbol(b)
      invariant forall b :: b in list[..i] ==> Symbol(b) in byteDecoder && byteDecoder[Symbol(b)] == b
      invariant forall s :: s in byteDecoder ==> 0 <= byteDecoder[s] < 256 && s == Symbol(byteDecoder[s])
    {
      var b: Byte := list[i];
      assert list[..i + 1] == list[..i] + [b];
      forall a: Byte ensures a != b ==> Symbol(a) != Symbol(b) {
        SymbolsDistinct(a, b);
      }
      byteEncoder := byteEncoder[b := [list2[i] as char]];
      byteDecoder := byteDecoder[[list2[i] as char] := b];
    }
    assert list[..|list|] == list;
  }

  method InitByteEncoderAndDecoder() returns (byteEncoder: map<int, string>, byteDecoder: map<string, int>)
    ensures IsByteAlphabet(byteEncoder, byteDecoder)
  {
    var list, list2 := AppendRange(33, 126, [], []);
    assert ArePaired(list, list2);
    list, list2 := AppendMore(161, 172, list, list2);
    list, list2 := AppendMore(174, 255, list, list2);

    list, list2 := AppendHidden(list, list2);
    byteEncoder, byteDecoder := FillTables(list, list2);
  }
}
