/** UTF-8 as Go's unicode/utf8 reads it: one rune at a time, with an error rune
    of width one wherever no well-formed sequence starts. */
module Utf8 {
  import opened Bytes

  const ERROR_RUNE: int := 0xFFFD

  predicate IsContinuation(b: Byte) {
    0x80 <= b <= 0xBF
  }

  predicate IsSecondOfThree(first: Byte, second: Byte) {
    (if first == 0xE0 then 0xA0 else 0x80) <= second <= (if first == 0xED then 0x9F else 0xBF)
  }

  predicate IsSecondOfFour(first: Byte, second: Byte) {
    (if first == 0xF0 then 0x90 else 0x80) <= second <= (if first == 0xF4 then 0x8F else 0xBF)
  }

  /** The length of the well-formed sequence at the start, or 0. */
  function SequenceLength(s: seq<Byte>): (n: nat)
    ensures n <= |s|
  {
    if |s| == 0 then 0
    else if s[0] < 0x80 then 1
    else if |s| < 2 then 0
    else if 0xC2 <= s[0] <= 0xDF && IsContinuation(s[1]) then 2
    else if |s| < 3 then 0
    else if 0xE0 <= s[0] <= 0xEF && IsSecondOfThree(s[0], s[1]) && IsContinuation(s[2]) then 3
    else if |s| < 4 then 0
    else if 0xF0 <= s[0] <= 0xF4 && IsSecondOfFour(s[0], s[1]) && IsContinuation(s[2]) && IsContinuation(s[3]) then 4
    else 0
  }

  /** The low bits of a byte, below the power of two `m`. */
  function Low(b: int, m: int): int
    requires m > 0
  {
    b % m
  }

  /** The rune at the start and its width. */
  function DecodeRune(s: seq<Byte>): (r: (int, nat))
    requires s != []
    ensures 1 <= r.1 <= |s|
  {
    var n := SequenceLength(s);
    if n == 1 then (s[0], 1)
    else if n == 2 then (Low(s[0], 32) * 64 + Low(s[1], 64), 2)
    else if n == 3 then (Low(s[0], 16) * 4096 + Low(s[1], 64) * 64 + Low(s[2], 64), 3)
    else if n == 4 then (Low(s[0], 8) * 262144 + Low(s[1], 64) * 4096 + Low(s[2], 64) * 64 + Low(s[3], 64), 4)
    else (ERROR_RUNE, 1)
  }

  predicate IsValid(s: seq<Byte>) {
    s == [] || (SequenceLength(s) > 0 && IsValid(s[SequenceLength(s)..]))
  }

  /** A rune is its byte exactly when that byte is ASCII; every other rune, the
      error rune included, is above ASCII. */
  lemma RuneOfFirstByte(s: seq<Byte>)
    requires s != []
    ensures s[0] < 0x80 ==> DecodeRune(s) == (s[0], 1)
    ensures s[0] >= 0x80 ==> DecodeRune(s).0 >= 0x80
  {
    var n := SequenceLength(s);
    if n == 2 {
      assert s[0] % 32 >= 2;
    } else if n == 3 {
      assert s[0] == 0xE0 ==> s[1] % 64 >= 32;
      assert s[0] != 0xE0 ==> s[0] % 16 >= 1;
    } else if n == 4 {
      assert s[0] == 0xF0 ==> s[1] % 64 >= 16;
      assert s[0] != 0xF0 ==> s[0] % 8 >= 1;
    }
  }

  /** A string of ASCII bytes is valid. */
  lemma {:induction false} AsciiIsValid(s: seq<Byte>)
    requires forall b :: b in s ==> b < 0x80
    ensures IsValid(s)
  {
    if s != [] {
      assert s[0] in s;
      assert forall b :: b in s[1..] ==> b in s;
      AsciiIsValid(s[1..]);
    }
  }

  // ---------- RFC 3629: valid means encoded ----------

  /** A code point that is not a surrogate. */
  predicate IsScalar(r: int) {
    0 <= r <= 0x10FFFF && !(0xD800 <= r <= 0xDFFF)
  }

  /** The bytes of a code point, section 3 of RFC 3629. */
  function EncodeRune(r: int): (s: seq<Byte>)
    requires IsScalar(r)
    ensures 1 <= |s| <= 4
  {
    if r < 0x80 then [r]
    else if r < 0x800 then [0xC0 + r / 64, 0x80 + r % 64]
    else if r < 0x10000 then [0xE0 + r / 4096, 0x80 + r / 64 % 64, 0x80 + r % 64]
    else [0xF0 + r / 262144, 0x80 + r / 4096 % 64, 0x80 + r / 64 % 64, 0x80 + r % 64]
  }

  function EncodeRunes(runes: seq<int>): seq<Byte>
    requires forall r :: r in runes ==> IsScalar(r)
  {
    if runes == [] then [] else EncodeRune(runes[0]) + EncodeRunes(runes[1..])
  }

  lemma TwoByteRune(r: int, s: seq<Byte>)
    requires 0x80 <= r < 0x800 && s == EncodeRune(r)
    ensures SequenceLength(s) == 2 && DecodeRune(s) == (r, 2)
  {
    assert r == r / 64 * 64 + r % 64;
  }

  lemma ThreeByteRune(r: int, s: seq<Byte>)
    requires 0x800 <= r < 0x10000 && IsScalar(r) && s == EncodeRune(r)
    ensures SequenceLength(s) == 3 && DecodeRune(s) == (r, 3)
  {
    assert r == r / 64 * 64 + r % 64 && r / 64 == r / 4096 * 64 + r / 64 % 64;
  }

  lemma FourByteDigits(r: int, a: int, b: int, c: int, d: int)
    requires a == r / 262144 && b == r / 4096 % 64 && c == r / 64 % 64 && d == r % 64
    ensures r == a * 262144 + b * 4096 + c * 64 + d
  {
    assert r / 64 == r / 4096 * 64 + c;
    assert r / 4096 == a * 64 + b;
  }

  lemma FourByteRange(r: int)
    requires 0x10000 <= r <= 0x10FFFF
    ensures 0 <= r / 262144 <= 4
    ensures r / 262144 == 0 ==> r / 4096 % 64 >= 16
    ensures r / 262144 == 4 ==> r / 4096 % 64 <= 15
  {
  }

  lemma ContinuationBits(b: int)
    requires 0 <= b < 64
    ensures Low(0x80 + b, 64) == b && IsContinuation(0x80 + b)
  {
  }

  lemma FourByteRune(r: int, s: seq<Byte>)
    requires 0x10000 <= r <= 0x10FFFF && s == EncodeRune(r)
    ensures SequenceLength(s) == 4 && DecodeRune(s) == (r, 4)
  {
    var a, b, c, d := r / 262144, r / 4096 % 64, r / 64 % 64, r % 64;
    FourByteRange(r);
    FourByteDigits(r, a, b, c, d);
    assert s == [0xF0 + a, 0x80 + b, 0x80 + c, 0x80 + d];
    hide EncodeRune;
    ContinuationBits(b);
    ContinuationBits(c);
    ContinuationBits(d);
    assert Low(0xF0 + a, 8) == a;
  }

  /** What follows a complete sequence makes no difference to it. */
  lemma SequenceStands(s: seq<Byte>, rest: seq<Byte>)
    requires SequenceLength(s) == |s| > 0
    ensures SequenceLength(s + rest) == |s| && DecodeRune(s + rest) == DecodeRune(s)
  {
  }

  /** An encoded code point is read back. */
  lemma DecodeUndoesEncode(r: int, rest: seq<Byte>)
    requires IsScalar(r)
    ensures var s := EncodeRune(r); SequenceLength(s + rest) == |s| && DecodeRune(s + rest) == (r, |s|)
  {
    var s := EncodeRune(r);
    if r < 0x80 {
    } else if r < 0x800 {
      TwoByteRune(r, s);
    } else if r < 0x10000 {
      ThreeByteRune(r, s);
    } else {
      FourByteRune(r, s);
    }
    hide SequenceLength, DecodeRune, EncodeRune;
    SequenceStands(s, rest);
  }

  lemma TwoByteSequence(s: seq<Byte>)
    requires SequenceLength(s) == 2
    ensures var r := DecodeRune(s).0; IsScalar(r) && s[..2] == EncodeRune(r)
  {
    var a: int, b: int := s[0] - 0xC0, s[1] - 0x80;
    assert s[0] % 32 == a && s[1] % 64 == b;
    var r := a * 64 + b;
    assert r / 64 == a && r % 64 == b;
  }

  lemma ThreeByteSequence(s: seq<Byte>)
    requires SequenceLength(s) == 3
    ensures var r := DecodeRune(s).0; IsScalar(r) && s[..3] == EncodeRune(r)
  {
    var a: int, b: int, c: int := s[0] - 0xE0, s[1] - 0x80, s[2] - 0x80;
    assert s[0] % 16 == a && s[1] % 64 == b && s[2] % 64 == c;
    var r := a * 4096 + b * 64 + c;
    assert r / 64 == a * 64 + b && r % 64 == c && r / 4096 == a && r / 64 % 64 == b;
  }

  lemma LastDigit(q: int, d: int)
    requires 0 <= d < 64
    ensures (q * 64 + d) / 64 == q && (q * 64 + d) % 64 == d
  {
  }

  lemma FourDigits(r: int, a: int, b: int, c: int, d: int)
    requires 0 <= b < 64 && 0 <= c < 64 && 0 <= d < 64 && r == a * 262144 + b * 4096 + c * 64 + d
    ensures r / 262144 == a && r / 4096 % 64 == b && r / 64 % 64 == c && r % 64 == d
  {
    LastDigit(a, b);
    LastDigit(a * 64 + b, c);
    LastDigit((a * 64 + b) * 64 + c, d);
    assert r / 4096 == r / 64 / 64 && r / 262144 == r / 64 / 64 / 64;
  }

  lemma FourByteSequence(s: seq<Byte>)
    requires SequenceLength(s) == 4
    ensures var r := DecodeRune(s).0; IsScalar(r) && s[..4] == EncodeRune(r)
  {
    var a: int, b: int, c: int, d: int := s[0] - 0xF0, s[1] - 0x80, s[2] - 0x80, s[3] - 0x80;
    ContinuationBits(b);
    ContinuationBits(c);
    ContinuationBits(d);
    assert Low(s[0], 8) == a;
    hide Low;
    var r := a * 262144 + b * 4096 + c * 64 + d;
    FourDigits(r, a, b, c, d);
    assert DecodeRune(s).0 == r && 0x10000 <= r <= 0x10FFFF;
  }

  /** Whatever is read as a sequence is the encoding of the code point read. */
  lemma EncodeUndoesDecode(s: seq<Byte>)
    requires SequenceLength(s) > 0
    ensures var r := DecodeRune(s).0; IsScalar(r) && s[..SequenceLength(s)] == EncodeRune(r) && EncodeRune(r) <= s
  {
    if SequenceLength(s) == 2 {
      TwoByteSequence(s);
    } else if SequenceLength(s) == 3 {
      ThreeByteSequence(s);
    } else if SequenceLength(s) == 4 {
      FourByteSequence(s);
    }
  }

  ghost predicate AreScalars(runes: seq<int>) {
    forall r :: r in runes ==> IsScalar(r)
  }

  lemma {:induction false} EncodedIsValid(runes: seq<int>)
    requires AreScalars(runes)
    ensures IsValid(EncodeRunes(runes))
  {
    if runes != [] {
      assert AreScalars(runes[1..]);
      EncodedIsValid(runes[1..]);
      var first, rest := EncodeRune(runes[0]), EncodeRunes(runes[1..]);
      DecodeUndoesEncode(runes[0], rest);
      assert (first + rest)[|first|..] == rest;
    }
  }

  lemma {:induction false} ValidIsEncoded(s: seq<Byte>) returns (runes: seq<int>)
    requires IsValid(s)
    ensures AreScalars(runes) && s == EncodeRunes(runes)
    decreases |s|
  {
    if s == [] {
      runes := [];
    } else {
      var n := SequenceLength(s);
      EncodeUndoesDecode(s);
      var r := DecodeRune(s).0;
      hide SequenceLength, DecodeRune, EncodeRune;
      var rest := ValidIsEncoded(s[n..]);
      runes := [r] + rest;
      assert runes[1..] == rest;
      assert s == s[..n] + s[n..];
    }
  }

  /** A byte string is valid if and only if it is the encoding of some code
      points. */
  lemma ValidIffEncoded(s: seq<Byte>)
    ensures IsValid(s) <==> exists runes :: AreScalars(runes) && s == EncodeRunes(runes)
  {
    if IsValid(s) {
      var runes := ValidIsEncoded(s);
    }
    if runes :| AreScalars(runes) && s == EncodeRunes(runes) {
      EncodedIsValid(runes);
    }
  }

  /** Where no encoded code point begins, the error rune U+FFFD is read, one byte
      wide. */
  lemma ErrorRuneOtherwise(s: seq<Byte>)
    requires s != [] && forall r :: IsScalar(r) ==> !(EncodeRune(r) <= s)
    ensures DecodeRune(s) == (0xFFFD, 1)
  {
    if SequenceLength(s) > 0 {
      EncodeUndoesDecode(s);
    }
  }
}
