/** Base 64 with the standard alphabet and padding, section 4 of RFC 4648, with
    the decoder's leniency: line breaks are skipped and the unused bits of the
    last character are not looked at. */
module Base64 {
  import opened Wrappers
  import opened Bytes

  type Sextet = v: int | 0 <= v < 64

  const PAD: Byte := 61

  function EncodeChar(v: Sextet): Byte {
    if v < 26 then v + 65 else if v < 52 then v - 26 + 97
    else if v < 62 then v - 52 + 48 else if v == 62 then 43 else 47
  }

  function DecodeChar(c: Byte): Option<Sextet> {
    if 65 <= c <= 90 then Some(c - 65)
    else if 97 <= c <= 122 then Some(c - 97 + 26)
    else if 48 <= c <= 57 then Some(c - 48 + 52)
    else if c == 43 then Some(62)
    else if c == 47 then Some(63)
    else None
  }

  lemma CharRoundTrip(v: Sextet, c: Byte)
    ensures DecodeChar(EncodeChar(v)) == Some(v) && EncodeChar(v) != PAD
    ensures DecodeChar(c).Some? ==> EncodeChar(DecodeChar(c).value) == c
  {
  }

  /** Table 1 of RFC 4648. */
  lemma CharsOfAlphabet(v: Sextet)
    ensures v < 26 ==> EncodeChar(v) as char == 'A' + v as char
    ensures 26 <= v < 52 ==> EncodeChar(v) as char == 'a' + (v - 26) as char
    ensures 52 <= v < 62 ==> EncodeChar(v) as char == '0' + (v - 52) as char
    ensures v == 62 ==> EncodeChar(v) as char == '+'
    ensures v == 63 ==> EncodeChar(v) as char == '/'
    ensures PAD as char == '='
  {
  }

  function Encode(bytes: seq<Byte>): seq<Byte> {
    if |bytes| == 0 then []
    else if |bytes| == 1 then
      [EncodeChar(bytes[0] / 4), EncodeChar(bytes[0] % 4 * 16), PAD, PAD]
    else if |bytes| == 2 then
      [EncodeChar(bytes[0] / 4), EncodeChar(bytes[0] % 4 * 16 + bytes[1] / 16), EncodeChar(bytes[1] % 16 * 4), PAD]
    else
      [EncodeChar(bytes[0] / 4), EncodeChar(bytes[0] % 4 * 16 + bytes[1] / 16),
       EncodeChar(bytes[1] % 16 * 4 + bytes[2] / 64), EncodeChar(bytes[2] % 64)]
      + Encode(bytes[3..])
  }

  predicate IsLineBreak(c: Byte) {
    c == 10 || c == 13
  }

  function SkipLineBreaks(s: seq<Byte>): seq<Byte> {
    if s == [] then [] else (if IsLineBreak(s[0]) then [] else [s[0]]) + SkipLineBreaks(s[1..])
  }

  function FirstByte(a: int, b: int): Byte
    requires 0 <= a < 64 && 0 <= b < 64
  {
    a * 4 + b / 16
  }

  function SecondByte(b: int, c: int): Byte
    requires 0 <= b < 64 && 0 <= c < 64
  {
    b % 16 * 16 + c / 4
  }

  function ThirdByte(c: int, d: int): Byte
    requires 0 <= c < 64 && 0 <= d < 64
  {
    c % 4 * 64 + d
  }

  function DecodeQuads(s: seq<Byte>): Option<seq<Byte>> {
    if s == [] then Some([])
    else if |s| < 4 then None
    else
      match (DecodeChar(s[0]), DecodeChar(s[1]), DecodeChar(s[2]), DecodeChar(s[3]))
      case (Some(a), Some(b), Some(c), Some(d)) =>
        (match DecodeQuads(s[4..])
         case Some(rest) => Some([FirstByte(a, b), SecondByte(b, c), ThirdByte(c, d)] + rest)
         case None => None)
      case (Some(a), Some(b), Some(c), None) =>
        if s[3] == PAD && |s| == 4 then Some([FirstByte(a, b), SecondByte(b, c)]) else None
      case (Some(a), Some(b), None, _) =>
        if s[2] == PAD && s[3] == PAD && |s| == 4 then Some([FirstByte(a, b)]) else None
      case _ => None
  }

  function Decode(s: seq<Byte>): Option<seq<Byte>> {
    DecodeQuads(SkipLineBreaks(s))
  }

  /** Regrouping three bytes into four sextets and back. */
  lemma Regroup(x: Byte, y: Byte, z: Byte)
    ensures FirstByte(x / 4, x % 4 * 16 + y / 16) == x
    ensures SecondByte(x % 4 * 16 + y / 16, y % 16 * 4 + z / 64) == y
    ensures ThirdByte(y % 16 * 4 + z / 64, z % 64) == z
  {
  }

  /** The same for the one or two bytes of a last group. */
  lemma LastBytesRoundTrip(x: Byte, y: Byte)
    ensures FirstByte(x / 4, x % 4 * 16) == x
    ensures FirstByte(x / 4, x % 4 * 16 + y / 16) == x
    ensures SecondByte(x % 4 * 16 + y / 16, y % 16 * 4) == y
  {
  }

  lemma DecodeFullQuad(a: Sextet, b: Sextet, c: Sextet, d: Sextet, rest: seq<Byte>)
    requires DecodeQuads(rest).Some?
    ensures DecodeQuads([EncodeChar(a), EncodeChar(b), EncodeChar(c), EncodeChar(d)] + rest)
         == Some([FirstByte(a, b), SecondByte(b, c), ThirdByte(c, d)] + DecodeQuads(rest).value)
  {
    var s := [EncodeChar(a), EncodeChar(b), EncodeChar(c), EncodeChar(d)] + rest;
    assert s[4..] == rest;
    assert DecodeChar(s[0]) == Some(a) && DecodeChar(s[1]) == Some(b)
        && DecodeChar(s[2]) == Some(c) && DecodeChar(s[3]) == Some(d);
    hide DecodeChar, EncodeChar, FirstByte, SecondByte, ThirdByte;
  }

  lemma DecodePaddedQuad(a: Sextet, b: Sextet, c: Sextet)
    ensures DecodeQuads([EncodeChar(a), EncodeChar(b), PAD, PAD]) == Some([FirstByte(a, b)])
    ensures DecodeQuads([EncodeChar(a), EncodeChar(b), EncodeChar(c), PAD]) == Some([FirstByte(a, b), SecondByte(b, c)])
  {
    CharRoundTrip(a, PAD);
    CharRoundTrip(b, PAD);
    CharRoundTrip(c, PAD);
    assert DecodeChar(PAD) == None;
    hide DecodeChar, EncodeChar, FirstByte, SecondByte, ThirdByte;
  }

  lemma DecodeNothing()
    ensures DecodeQuads([]) == Some([])
  {
  }

  lemma {:induction false} QuadsRoundTrip(bytes: seq<Byte>)
    ensures DecodeQuads(Encode(bytes)) == Some(bytes)
  {
    hide DecodeQuads, EncodeChar, FirstByte, SecondByte, ThirdByte;
    if |bytes| == 0 {
      DecodeNothing();
    } else if |bytes| == 1 {
      LastBytesRoundTrip(bytes[0], 0);
      assert bytes == [bytes[0]];
      DecodePaddedQuad(bytes[0] / 4, bytes[0] % 4 * 16, 0);
    } else if |bytes| == 2 {
      LastBytesRoundTrip(bytes[0], bytes[1]);
      DecodePaddedQuad(bytes[0] / 4, bytes[0] % 4 * 16 + bytes[1] / 16, bytes[1] % 16 * 4);
      assert bytes == [bytes[0], bytes[1]];
    } else {
      var x, y, z := bytes[0], bytes[1], bytes[2];
      Regroup(x, y, z);
      QuadsRoundTrip(bytes[3..]);
      DecodeFullQuad(x / 4, x % 4 * 16 + y / 16, y % 16 * 4 + z / 64, z % 64, Encode(bytes[3..]));
      assert bytes == [x, y, z] + bytes[3..];
    }
  }

  /** Encoded text consists of alphabet characters and padding only. */
  lemma {:induction false} EncodedChars(bytes: seq<Byte>, c: Byte)
    requires c in Encode(bytes)
    ensures c == PAD || DecodeChar(c).Some?
  {
    if |bytes| >= 3 {
      if c in Encode(bytes[3..]) {
        EncodedChars(bytes[3..], c);
      }
    }
  }

  lemma {:induction false} NothingToSkip(s: seq<Byte>)
    requires forall c :: c in s ==> !IsLineBreak(c)
    ensures SkipLineBreaks(s) == s
  {
    if s != [] {
      assert s[0] in s;
      NothingToSkip(s[1..]);
    }
  }

  /** Decoding undoes encoding, for every byte string. */
  lemma DecodeUndoesEncode(bytes: seq<Byte>)
    ensures Decode(Encode(bytes)) == Some(bytes)
  {
    forall c | c in Encode(bytes) ensures !IsLineBreak(c) {
      EncodedChars(bytes, c);
    }
    NothingToSkip(Encode(bytes));
    QuadsRoundTrip(bytes);
  }

  /** Four characters for every started group of three bytes. */
  lemma {:induction false} EncodedLength(bytes: seq<Byte>)
    ensures |Encode(bytes)| == (|bytes| + 2) / 3 * 4
  {
    if |bytes| >= 3 {
      EncodedLength(bytes[3..]);
    }
  }

  ghost predicate EndsInPads(s: seq<Byte>, pads: int) {
    && 0 <= pads <= |s|
    && (forall i :: 0 <= i < |s| - pads ==> DecodeChar(s[i]).Some?)
    && (forall i :: |s| - pads <= i < |s| ==> s[i] == PAD)
  }

  /** Whole quads of alphabet characters, at most two of the last quad replaced
      by padding at the end. */
  ghost predicate IsWellFormed(s: seq<Byte>) {
    |s| % 4 == 0 && exists pads :: 0 <= pads <= 2 && EndsInPads(s, pads)
  }

  /** Exactly the well-formed texts decode. */
  lemma {:induction false} DecodesIfWellFormed(s: seq<Byte>)
    ensures DecodeQuads(s).Some? <==> IsWellFormed(s)
  {
    hide FirstByte, SecondByte, ThirdByte;
    assert DecodeChar(PAD) == None;
    hide DecodeChar;
    if s == [] {
      assert EndsInPads(s, 0);
    } else if |s| >= 4 && DecodeChar(s[0]).Some? && DecodeChar(s[1]).Some?
              && DecodeChar(s[2]).Some? && DecodeChar(s[3]).Some? {
      var rest := s[4..];
      DecodesIfWellFormed(rest);
      if DecodeQuads(s).Some? {
        var pads :| 0 <= pads <= 2 && EndsInPads(rest, pads);
        assert forall i :: 4 <= i < |s| ==> s[i] == rest[i - 4];
        assert EndsInPads(s, pads);
      }
      if IsWellFormed(s) {
        var pads :| 0 <= pads <= 2 && EndsInPads(s, pads);
        assert EndsInPads(rest, pads);
      }
    } else if |s| >= 4 {
      if DecodeQuads(s).Some? {
        assert EndsInPads(s, if DecodeChar(s[2]).Some? then 1 else 2);
      }
      if IsWellFormed(s) {
        var pads :| 0 <= pads <= 2 && EndsInPads(s, pads);
        assert |s| == 4;
        assert DecodeQuads(s).Some?;
      }
    }
  }

  // ---------- Section 4 of RFC 4648, by numbers ----------

  function Number3(x: int, y: int, z: int): int {
    (x * 256 + y) * 256 + z
  }

  function Number4(a: int, b: int, c: int, d: int): int {
    ((a * 64 + b) * 64 + c) * 64 + d
  }

  /** The characters for four values. */
  function Quad(a: Sextet, b: Sextet, c: Sextet, d: Sextet): seq<Byte> {
    [EncodeChar(a), EncodeChar(b), EncodeChar(c), EncodeChar(d)]
  }

  /** Three bytes are encoded as the four digits, in base 64, of the number that
      they write in base 256. */
  lemma GroupOfThree(x: Byte, y: Byte, z: Byte, rest: seq<Byte>) returns (a: Sextet, b: Sextet, c: Sextet, d: Sextet)
    ensures Encode([x, y, z] + rest) == Quad(a, b, c, d) + Encode(rest)
    ensures Number4(a, b, c, d) == Number3(x, y, z)
  {
    var bytes := [x, y, z] + rest;
    assert bytes[3..] == rest;
    a, b, c, d := x / 4, x % 4 * 16 + y / 16, y % 16 * 4 + z / 64, z % 64;
  }

  /** A last group is encoded as if filled up with zero bytes, except that padding
      stands for the digits that only hold filling. */
  lemma LastGroup(x: Byte, y: Byte)
    ensures Encode([x]) == Encode([x, 0, 0])[..2] + [PAD, PAD]
    ensures Encode([x, y]) == Encode([x, y, 0])[..3] + [PAD]
    ensures Encode([]) == []
  {
    assert [x, 0, 0][3..] == [] && [x, y, 0][3..] == [];
  }

  /** The bytes of a quad are the digits, in base 256, of the number that it writes
      in base 64. */
  lemma QuadNumber(a: Sextet, b: Sextet, c: Sextet, d: Sextet)
    ensures Number3(FirstByte(a, b), SecondByte(b, c), ThirdByte(c, d)) == Number4(a, b, c, d)
  {
  }

  /** A quad is decoded to its bytes; with padding, to those that are left when the
      low bits are dropped. */
  lemma DecodedQuad(a: Sextet, b: Sextet, c: Sextet, d: Sextet, rest: seq<Byte>)
    requires DecodeQuads(rest).Some?
    ensures DecodeQuads(Quad(a, b, c, d) + rest)
         == Some([FirstByte(a, b), SecondByte(b, c), ThirdByte(c, d)] + DecodeQuads(rest).value)
    ensures DecodeQuads([EncodeChar(a), EncodeChar(b), EncodeChar(c), PAD]) == Some([FirstByte(a, b), SecondByte(b, c)])
    ensures DecodeQuads([EncodeChar(a), EncodeChar(b), PAD, PAD]) == Some([FirstByte(a, b)])
  {
    DecodeFullQuad(a, b, c, d, rest);
    DecodePaddedQuad(a, b, c);
  }

  lemma {:induction false} SkipOfTwo(s: seq<Byte>, t: seq<Byte>)
    ensures SkipLineBreaks(s + t) == SkipLineBreaks(s) + SkipLineBreaks(t)
  {
    if s == [] {
      assert s + t == t;
    } else {
      assert (s + t)[1..] == s[1..] + t;
      SkipOfTwo(s[1..], t);
    }
  }

  lemma SkipOfOne(br: Byte)
    requires br == '\r' as int || br == '\n' as int
    ensures SkipLineBreaks([br]) == []
  {
    assert [br][1..] == [];
  }

  /** A carriage return or a line feed makes no difference anywhere. */
  lemma LineBreaksAreIgnored(s: seq<Byte>, br: Byte, t: seq<Byte>)
    requires br == '\r' as int || br == '\n' as int
    ensures Decode(s + [br] + t) == Decode(s + t)
  {
    hide SkipLineBreaks, DecodeQuads;
    SkipOfTwo(s + [br], t);
    SkipOfTwo(s, [br]);
    SkipOfTwo(s, t);
    SkipOfOne(br);
    assert SkipLineBreaks(s) + [] == SkipLineBreaks(s);
  }

  /** Without them decoding is decoding quads. */
  lemma OtherwiseQuads(s: seq<Byte>)
    requires forall c :: c in s ==> c != '\r' as int && c != '\n' as int
    ensures Decode(s) == DecodeQuads(s)
  {
    hide DecodeQuads;
    NothingToSkip(s);
  }
}
