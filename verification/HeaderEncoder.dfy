/** Header values: passed through when they are plain, wrapped as base 64 when
    they are not. Values are byte strings; an absent value is a nil pointer. */
module HeaderEncoder {
  import opened Wrappers
  import opened Bytes
  import Utf8
  import Base64

  /** The bytes of =?base64? and of ?= */
  const PREFIX: seq<Byte> := [61, 63, 98, 97, 115, 101, 54, 52, 63]
  const SUFFIX: seq<Byte> := [63, 61]
  const SPACE: Byte := 32
  const TAB: Byte := 9

  predicate HasSuffix(s: seq<Byte>, suffix: seq<Byte>) {
    |suffix| <= |s| && s[|s| - |suffix|..] == suffix
  }

  predicate LooksWrapped(value: seq<Byte>) {
    PREFIX <= value && HasSuffix(value, SUFFIX)
  }

  predicate IsBlank(b: Byte) {
    b == SPACE || b == TAB
  }

  /** The scan over the runes for one outside printable ASCII. */
  predicate HasUnprintableRune(value: seq<Byte>) {
    value != [] &&
    var (ch, width) := Utf8.DecodeRune(value);
    ch < 0x20 || ch > 0x7E || HasUnprintableRune(value[width..])
  }

  predicate RequiresBase64Encoding(value: seq<Byte>) {
    |value| > 0 &&
    (IsBlank(value[0]) || IsBlank(value[|value| - 1]) || LooksWrapped(value) || HasUnprintableRune(value))
  }

  function EncodeAsBase64(value: seq<Byte>): seq<Byte> {
    PREFIX + Base64.Encode(value) + SUFFIX
  }

  function EncodeString(value: Option<seq<Byte>>): Option<seq<Byte>> {
    match value
    case None => None
    case Some(v) => if RequiresBase64Encoding(v) then Some(EncodeAsBase64(v)) else value
  }

  /** The one value whose prefix and suffix overlap: the prefix and one more
      equals sign. */
  const OVERLAPPING: seq<Byte> := PREFIX + [61]

  /** How decoding ends: with a value or none, or in a failed slice. */
  datatype Outcome = SliceOutOfRange | Decoded(value: Option<seq<Byte>>)

  function DecodeValue(headerValue: Option<seq<Byte>>): Outcome {
    match headerValue
    case None => Decoded(None)
    case Some(val) =>
      if LooksWrapped(val) then
        if |PREFIX| > |val| - |SUFFIX| then SliceOutOfRange
        else
          match Base64.Decode(val[|PREFIX|..|val| - |SUFFIX|])
          case None => Decoded(None)
          case Some(bytes) => Decoded(if Utf8.IsValid(bytes) then Some(bytes) else None)
      else Decoded(headerValue)
  }

  lemma WrappedIsLongEnough(value: seq<Byte>)
    requires LooksWrapped(value)
    ensures |value| >= |PREFIX| + |SUFFIX| || value == OVERLAPPING
  {
    assert value[|value| - |SUFFIX|..][1] == value[|value| - 1] == 61;
    if |value| == |PREFIX| + 1 {
      assert value == PREFIX + [value[|PREFIX|]];
    }
  }

  /** Decoding fails to slice for exactly one header. */
  lemma SliceFailsIff(headerValue: Option<seq<Byte>>)
    ensures DecodeValue(headerValue) == SliceOutOfRange <==> headerValue == Some(OVERLAPPING)
  {
    if headerValue.Some? && LooksWrapped(headerValue.value) {
      WrappedIsLongEnough(headerValue.value);
    }
    assert OVERLAPPING[|OVERLAPPING| - |SUFFIX|..] == SUFFIX;
    assert PREFIX <= OVERLAPPING;
  }

  predicate IsPrintable(b: Byte) {
    0x20 <= b <= 0x7E
  }

  /** The scan over runes comes down to the bytes: it finds something exactly
      when some byte is not printable ASCII. */
  lemma {:induction false} ScanIsBytewise(value: seq<Byte>)
    ensures HasUnprintableRune(value) <==> exists b :: b in value && !IsPrintable(b)
    decreases |value|
  {
    if value != [] {
      Utf8.RuneOfFirstByte(value);
      assert value[0] in value;
      if IsPrintable(value[0]) {
        var rest := value[1..];
        ScanIsBytewise(rest);
        assert value == [value[0]] + rest;
      }
    }
  }

  lemma WrappedParts(value: seq<Byte>)
    ensures var w := EncodeAsBase64(value);
            LooksWrapped(w) && w[|PREFIX|..|w| - |SUFFIX|] == Base64.Encode(value) && w != OVERLAPPING
  {
    var w, e := EncodeAsBase64(value), Base64.Encode(value);
    assert w == PREFIX + (e + SUFFIX);
    assert w[|w| - |SUFFIX|..] == SUFFIX;
    assert w[|PREFIX|..|w| - |SUFFIX|] == e;
  }

  /** The encoder never produces the value the decoder cannot slice. */
  lemma EncodedNeverOverlaps(value: Option<seq<Byte>>)
    ensures DecodeValue(EncodeString(value)) != SliceOutOfRange
  {
    SliceFailsIff(EncodeString(value));
    if value.Some? {
      WrappedParts(value.value);
      assert OVERLAPPING[|OVERLAPPING| - |SUFFIX|..] == SUFFIX;
    }
  }

  /** What is sent is printable ASCII without blanks at either end. */
  lemma EncodedIsHeaderSafe(value: seq<Byte>)
    ensures var sent := EncodeString(Some(value)).value;
            && (forall b :: b in sent ==> IsPrintable(b))
            && (sent != [] ==> !IsBlank(sent[0]) && !IsBlank(sent[|sent| - 1]))
            && (sent == [] <==> value == [])
  {
    if RequiresBase64Encoding(value) {
      var e := Base64.Encode(value);
      forall b | b in EncodeAsBase64(value) ensures IsPrintable(b) {
        if b in e {
          Base64.EncodedChars(value, b);
        }
      }
    } else {
      ScanIsBytewise(value);
    }
  }

  /** A receiver gets back exactly what was sent if and only if that was absent
      or valid UTF-8. */
  lemma RoundTrip(value: Option<seq<Byte>>)
    ensures DecodeValue(EncodeString(value)) != SliceOutOfRange
    ensures DecodeValue(EncodeString(value)) == Decoded(value) <==> (value.Some? ==> Utf8.IsValid(value.value))
  {
    EncodedNeverOverlaps(value);
    if value.Some? {
      var v := value.value;
      if RequiresBase64Encoding(v) {
        WrappedParts(v);
        Base64.DecodeUndoesEncode(v);
      } else {
        ScanIsBytewise(v);
        Utf8.AsciiIsValid(v);
      }
    }
  }

  /** Different values are sent differently, even invalid ones and even when a
      value already looks wrapped. */
  lemma EncodingIsInjective(value: Option<seq<Byte>>, other: Option<seq<Byte>>)
    requires EncodeString(value) == EncodeString(other)
    ensures value == other
  {
    if value.Some? && other.Some? {
      var v, w := value.value, other.value;
      WrappedParts(v);
      WrappedParts(w);
      Base64.DecodeUndoesEncode(v);
      Base64.DecodeUndoesEncode(w);
      Base64.EncodedLength(v);
      Base64.EncodedLength(w);
    }
  }

  ghost predicate Begins(value: seq<Byte>, text: string) {
    |text| <= |value| && forall i :: 0 <= i < |text| ==> value[i] == text[i] as int
  }

  ghost predicate Ends(value: seq<Byte>, text: string) {
    |text| <= |value| && forall i :: 0 <= i < |text| ==> value[|value| - |text| + i] == text[i] as int
  }

  /** What a value must be like to be sent as it is. */
  ghost predicate IsPlain(value: seq<Byte>) {
    value != [] ==>
    && (forall i :: 0 <= i < |value| ==> ' ' as int <= value[i] <= '~' as int)
    && value[0] != ' ' as int && value[|value| - 1] != ' ' as int
    && !(Begins(value, "=?base64?") && Ends(value, "?="))
  }

  lemma BeginsIsPrefix(value: seq<Byte>)
    ensures Begins(value, "=?base64?") <==> PREFIX <= value
  {
    var text := "=?base64?";
    assert forall i :: 0 <= i < |text| ==> text[i] as int == PREFIX[i];
    if Begins(value, text) {
      assert value[..9] == PREFIX;
    }
  }

  lemma EndsIsSuffix(value: seq<Byte>)
    ensures Ends(value, "?=") <==> HasSuffix(value, SUFFIX)
  {
    var text := "?=";
    assert text[0] as int == SUFFIX[0] && text[1] as int == SUFFIX[1];
    if |value| >= 2 {
      var tail := value[|value| - 2..];
      assert tail[0] == value[|value| - 2 + 0] && tail[1] == value[|value| - 2 + 1];
      if Ends(value, text) {
        assert tail == SUFFIX;
      }
    }
  }

  lemma PrintableBytes(value: seq<Byte>)
    ensures (exists b :: b in value && !IsPrintable(b))
       <==> exists i :: 0 <= i < |value| && !(' ' as int <= value[i] <= '~' as int)
  {
    if b :| b in value && !IsPrintable(b) {
      var i :| 0 <= i < |value| && value[i] == b;
    }
    if i :| 0 <= i < |value| && !(' ' as int <= value[i] <= '~' as int) {
      assert value[i] in value;
    }
  }

  /** Exactly the plain values are sent as they are; all others are wrapped, as
      =?base64?...?=. */
  lemma PlainIffUnchanged(value: seq<Byte>)
    ensures EncodeString(Some(value)) == Some(value) <==> IsPlain(value)
    ensures !IsPlain(value) ==>
              var sent := EncodeString(Some(value));
              && sent == Some(PREFIX + Base64.Encode(value) + SUFFIX)
              && Begins(sent.value, "=?base64?") && Ends(sent.value, "?=")
    ensures EncodeString(None) == None
  {
    ScanIsBytewise(value);
    BeginsIsPrefix(value);
    EndsIsSuffix(value);
    WrappedParts(value);
    BeginsIsPrefix(EncodeAsBase64(value));
    EndsIsSuffix(EncodeAsBase64(value));
    Base64.EncodedLength(value);
    assert RequiresBase64Encoding(value) <==> !IsPlain(value) by {
      hide HasUnprintableRune, HasSuffix, Begins, Ends;
      assert (exists b :: b in value && !IsPrintable(b))
        <==> !(forall i :: 0 <= i < |value| ==> ' ' as int <= value[i] <= '~' as int) by { PrintableBytes(value); }
    }
  }

  /** A header that is not wrapped is its own value. A wrapped one has the value
      that its base 64 stands for, and none if that does not decode or is not
      valid UTF-8. */
  lemma DecodedValue(header: seq<Byte>, content: seq<Byte>)
    ensures !(Begins(header, "=?base64?") && Ends(header, "?=")) ==> DecodeValue(Some(header)) == Decoded(Some(header))
    ensures header == PREFIX + content + SUFFIX ==>
              forall value :: DecodeValue(Some(header)) == Decoded(Some(value)) <==>
                Base64.Decode(content) == Some(value) && Utf8.IsValid(value)
    ensures header == PREFIX + content + SUFFIX ==> DecodeValue(Some(header)).Decoded?
    ensures DecodeValue(None) == Decoded(None)
  {
    BeginsIsPrefix(header);
    EndsIsSuffix(header);
    if header == PREFIX + content + SUFFIX {
      assert header == PREFIX + (content + SUFFIX);
      assert header[|header| - |SUFFIX|..] == SUFFIX;
      assert header[|PREFIX|..|header| - |SUFFIX|] == content;
    }
  }
}
