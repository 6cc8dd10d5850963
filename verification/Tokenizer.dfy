/** The tokenizer: tables, memoized merging, encoding and decoding. */
module Tokenizer {
  import opened Bytes
  import opened GoMaps
  import opened Texts
  import opened ByteSymbols
  import opened BytePairs

  /** A piece of text, spelled with the symbols of its bytes. */
  function Spelling(piece: seq<Byte>): (s: string)
    ensures |s| == |piece|
  {
    seq(|piece|, i requires 0 <= i < |piece| => SymbolCode(piece[i]) as char)
  }

  function Numbers(encoder: map<string, int>, word: seq<string>): (ns: seq<int>)
    ensures |ns| == |word|
  {
    seq(|word|, i requires 0 <= i < |word| => At(encoder, word[i]))
  }

  /** The memo table's reference value for a token. */
  ghost function Merged(vocab: Vocab, token: string): string {
    JoinWith(Encoding(vocab, Chars(token)), ' ')
  }

  /** The numbers a sequence of pieces is encoded to. */
  ghost function EncodingOf(encoder: map<string, int>, vocab: Vocab, pieces: seq<seq<Byte>>): seq<int> {
    if pieces == [] then []
    else EncodingOf(encoder, vocab, pieces[..|pieces| - 1])
         + Numbers(encoder, Encoding(vocab, Chars(Spelling(pieces[|pieces| - 1]))))
  }

  function TextAt(decoder: map<int, string>, n: int): string {
    if n in decoder then decoder[n] else ""
  }

  function TextsOf(decoder: map<int, string>, tokens: seq<int>): (ts: seq<string>)
    ensures |ts| == |tokens|
  {
    seq(|tokens|, i requires 0 <= i < |tokens| => TextAt(decoder, tokens[i]))
  }

  /** The joined symbol text of a list of numbers. */
  function SymbolText(decoder: map<int, string>, tokens: seq<int>): string {
    Concat(TextsOf(decoder, tokens))
  }

  /** Go's conversion of an int to a byte. */
  function ToByte(x: int): Byte {
    x % 256
  }

  function BytesOf(byteDecoder: map<string, int>, text: string): (bs: seq<Byte>)
    ensures |bs| == |text|
  {
    seq(|text|, i requires 0 <= i < |text| => ToByte(At(byteDecoder, [text[i]])))
  }

  /** Unknown numbers decode to nothing, unknown symbols to zero bytes. */
  function DecodingOf(decoder: map<int, string>, byteDecoder: map<string, int>, tokens: seq<int>): seq<Byte> {
    BytesOf(byteDecoder, SymbolText(decoder, tokens))
  }

  /** What the data files provide: distinct numbers, a number for every byte's
      symbol and for every product of a ranked pair, and distinct ranks. */
  ghost predicate IsComplete(encoder: map<string, int>, vocab: Vocab) {
    && (forall s, t :: s in encoder && t in encoder && encoder[s] == encoder[t] ==> s == t)
    && (forall b: Byte :: Symbol(b) in encoder)
    && (forall p :: p in vocab ==> p.0 + p.1 in encoder)
  }

  ghost predicate IsInverse(encoder: map<string, int>, decoder: map<int, string>) {
    forall s :: s in encoder ==> encoder[s] in decoder && decoder[encoder[s]] == s
  }

  lemma SpellingHasNoSpace(piece: seq<Byte>)
    ensures ' ' !in Spelling(piece)
  {
    forall i | 0 <= i < |piece| ensures Spelling(piece)[i] != ' ' {
      SymbolsDistinct(piece[i], piece[i]);
    }
  }

  lemma {:induction false} CharOfPart(parts: seq<string>, p: string, c: char)
    requires p in parts && c in p
    ensures c in Concat(parts)
  {
    if p != parts[0] {
      CharOfPart(parts[1..], p, c);
    }
  }

  /** Every symbol of a merged piece is known and free of spaces, and together
      they spell the piece. */
  lemma MergedPiece(encoder: map<string, int>, vocab: Vocab, piece: seq<Byte>)
    requires RanksDistinct(vocab) && IsComplete(encoder, vocab) && piece != []
    ensures var word := Encoding(vocab, Chars(Spelling(piece)));
            && word != [] && Concat(word) == Spelling(piece)
            && forall s :: s in word ==> s in encoder && ' ' !in s
  {
    var text := Spelling(piece);
    var word := Encoding(vocab, Chars(text));
    EncodingIsNormalForm(vocab, Chars(text));
    ConcatOfChars(text);
    forall s | s in word ensures s in encoder && ' ' !in s {
      forall t | t in Chars(text) ensures t in encoder.Keys {
        var i :| 0 <= i < |text| && t == [text[i]];
        assert t == Symbol(piece[i]);
      }
      EncodingSymbols(vocab, Chars(text), encoder.Keys, s);
      if ' ' in s {
        CharOfPart(word, s, ' ');
        SpellingHasNoSpace(piece);
        assert false;
      }
    }
  }

  lemma {:induction false} DecodedNumbers(encoder: map<string, int>, decoder: map<int, string>, word: seq<string>)
    requires IsInverse(encoder, decoder) && forall s :: s in word ==> s in encoder
    ensures SymbolText(decoder, Numbers(encoder, word)) == Concat(word)
  {
    var texts := TextsOf(decoder, Numbers(encoder, word));
    forall i | 0 <= i < |word| ensures texts[i] == word[i] {
      assert word[i] in word;
    }
    assert texts == word;
  }

  lemma SymbolTextOfTwo(decoder: map<int, string>, a: seq<int>, b: seq<int>)
    ensures SymbolText(decoder, a + b) == SymbolText(decoder, a) + SymbolText(decoder, b)
  {
    assert TextsOf(decoder, a + b) == TextsOf(decoder, a) + TextsOf(decoder, b);
    ConcatOfTwo(TextsOf(decoder, a), TextsOf(decoder, b));
  }

  lemma SpellingOfTwo(a: seq<Byte>, b: seq<Byte>)
    ensures Spelling(a + b) == Spelling(a) + Spelling(b)
  {
  }

  /** The numbers of all pieces spell the whole text. */
  lemma {:induction false} EncodedText(encoder: map<string, int>, decoder: map<int, string>, vocab: Vocab,
                                       pieces: seq<seq<Byte>>)
    requires RanksDistinct(vocab) && IsComplete(encoder, vocab) && IsInverse(encoder, decoder)
    requires forall p :: p in pieces ==> p != []
    ensures SymbolText(decoder, EncodingOf(encoder, vocab, pieces)) == Spelling(Concat(pieces))
    decreases |pieces|
  {
    if pieces != [] {
      var front, last := pieces[..|pieces| - 1], pieces[|pieces| - 1];
      var word := Encoding(vocab, Chars(Spelling(last)));
      assert pieces == front + [last] && last in pieces;
      assert forall p :: p in front ==> p in pieces;
      EncodedText(encoder, decoder, vocab, front);
      MergedPiece(encoder, vocab, last);
      DecodedNumbers(encoder, decoder, word);
      SymbolTextOfTwo(decoder, EncodingOf(encoder, vocab, front), Numbers(encoder, word));
      ConcatOfTwo(front, [last]);
      assert Concat([last]) == last;
      SpellingOfTwo(Concat(front), last);
    }
  }

  /** The encoding goes piece by piece, and a piece is encoded to the numbers of
      its merged symbols. */
  lemma {:induction false} EncodingIsPiecewise(encoder: map<string, int>, vocab: Vocab,
                                               xs: seq<seq<Byte>>, ys: seq<seq<Byte>>)
    ensures EncodingOf(encoder, vocab, xs + ys) == EncodingOf(encoder, vocab, xs) + EncodingOf(encoder, vocab, ys)
    decreases |ys|
  {
    hide Numbers, Encoding, Chars, Spelling;
    if ys == [] {
      assert xs + ys == xs;
    } else {
      var n := |ys| - 1;
      assert (xs + ys)[..|xs| + n] == xs + ys[..n];
      EncodingIsPiecewise(encoder, vocab, xs, ys[..n]);
    }
  }

  lemma EncodingOfPiece(encoder: map<string, int>, vocab: Vocab, piece: seq<Byte>)
    ensures var word, numbers := Encoding(vocab, Chars(Spelling(piece))), EncodingOf(encoder, vocab, [piece]);
            |numbers| == |word| && forall j :: 0 <= j < |word| && word[j] in encoder ==> numbers[j] == encoder[word[j]]
    ensures EncodingOf(encoder, vocab, []) == []
  {
    hide Encoding, Chars, Spelling;
    assert [piece][..0] == [];
  }

  /** Decoding goes number by number: a known one gives a byte for each of its
      symbols, zero where the symbol is unknown, and an unknown one nothing. */
  lemma DecodingIsPiecewise(decoder: map<int, string>, byteDecoder: map<string, int>, a: seq<int>, b: seq<int>)
    ensures DecodingOf(decoder, byteDecoder, a + b)
         == DecodingOf(decoder, byteDecoder, a) + DecodingOf(decoder, byteDecoder, b)
  {
    SymbolTextOfTwo(decoder, a, b);
  }

  lemma DecodingOfNumber(decoder: map<int, string>, byteDecoder: map<string, int>, n: int)
    ensures n !in decoder ==> DecodingOf(decoder, byteDecoder, [n]) == []
    ensures n in decoder ==> |DecodingOf(decoder, byteDecoder, [n])| == |decoder[n]|
    ensures n in decoder ==> forall i :: 0 <= i < |decoder[n]| ==>
              var symbol, byte := [decoder[n][i]], DecodingOf(decoder, byteDecoder, [n])[i];
              && (symbol !in byteDecoder ==> byte == 0)
              && (symbol in byteDecoder && 0 <= byteDecoder[symbol] < 256 ==> byte == byteDecoder[symbol])
    ensures DecodingOf(decoder, byteDecoder, []) == []
  {
    assert TextsOf(decoder, [n]) == [TextAt(decoder, n)];
    assert TextsOf(decoder, []) == [];
    ConcatOfOne(TextAt(decoder, n));
  }

  /** Decoding undoes encoding, for every text and every way of cutting it. */
  lemma DecodeUndoesEncode(encoder: map<string, int>, decoder: map<int, string>, vocab: Vocab,
                           byteEncoder: map<int, string>, byteDecoder: map<string, int>, pieces: seq<seq<Byte>>)
    requires RanksDistinct(vocab) && IsComplete(encoder, vocab) && IsInverse(encoder, decoder)
    requires IsByteAlphabet(byteEncoder, byteDecoder)
    requires forall p :: p in pieces ==> p != []
    ensures DecodingOf(decoder, byteDecoder, EncodingOf(encoder, vocab, pieces)) == Concat(pieces)
  {
    EncodedText(encoder, decoder, vocab, pieces);
    var text := Concat(pieces);
    forall i | 0 <= i < |text| ensures ToByte(At(byteDecoder, [Spelling(text)[i]])) == text[i] {
      assert [Spelling(text)[i]] == Symbol(text[i]);
    }
  }

  lemma PiecesMakeText<T>(pieces: seq<seq<T>>)
    requires pieces != [] && forall p :: p in pieces ==> p != []
    ensures Concat(pieces) != []
  {
    assert pieces[0] in pieces;
  }

  method SpellPiece(byteEncoder: map<int, string>, ghost byteDecoder: map<string, int>, piece: seq<Byte>)
    returns (ts: seq<string>)
    requires IsByteAlphabet(byteEncoder, byteDecoder)
    ensures ts == Chars(Spelling(piece))
  {
    ts := [];
    for j := 0 to |piece|
      invariant |ts| == j && forall k :: 0 <= k < j ==> ts[k] == Symbol(piece[k])
    {
      ts := ts + [byteEncoder[piece[j]]];
    }
  }

  method NumberSymbols(encoder: map<string, int>, symbols: seq<string>) returns (bpeTokens: seq<int>)
    ensures bpeTokens == Numbers(encoder, symbols)
  {
    bpeTokens := [];
    for j := 0 to |symbols|
      invariant |bpeTokens| == j && forall k :: 0 <= k < j ==> bpeTokens[k] == At(encoder, symbols[k])
    {
      bpeTokens := bpeTokens + [At(encoder, symbols[j])];
    }
  }

  method CollectTexts(decoder: map<int, string>, tokens: seq<int>) returns (t: seq<string>)
    ensures t == TextsOf(decoder, tokens)
  {
    t := [];
    for i := 0 to |tokens|
      invariant |t| == i && forall k :: 0 <= k < i ==> t[k] == TextAt(decoder, tokens[k])
    {
      t := t + [TextAt(decoder, tokens[i])];
    }
  }

  method CollectBytes(byteDecoder: map<string, int>, text: string) returns (bytes: seq<Byte>)
    ensures bytes == BytesOf(byteDecoder, text)
  {
    var textSplit := Chars(text);
    bytes := [];
    for i := 0 to |textSplit|
      invariant |bytes| == i && forall k :: 0 <= k < i ==> bytes[k] == ToByte(At(byteDecoder, [text[k]]))
    {
      bytes := bytes + [ToByte(At(byteDecoder, textSplit[i]))];
    }
  }

  /** Every remembered result is the one computed afresh. */
  ghost predicate IsSound(cache: map<string, string>, vocab: Vocab) {
    forall t :: t in cache ==> cache[t] == Merged(vocab, t)
  }

  /** The ranks are the line numbers; a repeated pair keeps its last line. */
  function VocabOf(raws: seq<string>): Vocab
    requires forall i :: 0 <= i < |raws| ==> |SplitOn(raws[i], ' ')| >= 2
  {
    if raws == [] then map[]
    else
      var n := |raws| - 1;
      var t := SplitOn(raws[n], ' ');
      VocabOf(raws[..n])[(t[0], t[1]) := n]
  }

  /** The line's first two fields are the halves of the pair. */
  ghost predicate IsLine(raw: string, p: (string, string)) {
    var t := SplitOn(raw, ' ');
    |t| >= 2 && t[0] == p.0 && t[1] == p.1
  }

  /** The rank of a pair is the number of the last line that holds it. */
  ghost predicate RanksAreLines(raws: seq<string>, vocab: Vocab) {
    && (forall p :: p in vocab ==> 0 <= vocab[p] < |raws| && IsLine(raws[vocab[p]], p))
    && (forall i, p :: 0 <= i < |raws| && IsLine(raws[i], p) ==> p in vocab && vocab[p] >= i)
  }

  lemma OneLine(raw: string, t: seq<string>)
    requires t == SplitOn(raw, ' ') && |t| >= 2
    ensures forall p :: IsLine(raw, p) <==> p == (t[0], t[1])
  {
    hide SplitOn;
  }

  lemma LineAdded(raws: seq<string>, n: nat, vocab: Vocab, last: (string, string))
    requires |raws| == n + 1 && RanksAreLines(raws[..n], vocab)
    requires forall p :: IsLine(raws[n], p) <==> p == last
    ensures RanksAreLines(raws, vocab[last := n])
  {
    hide IsLine;
    forall i, p | 0 <= i < |raws| && IsLine(raws[i], p) ensures p == last || (p in vocab && vocab[p] >= i) {
      if i < n {
        assert raws[..n][i] == raws[i];
      }
    }
  }

  lemma {:induction false} VocabIsLastLine(raws: seq<string>)
    requires forall i :: 0 <= i < |raws| ==> |SplitOn(raws[i], ' ')| >= 2
    ensures RanksAreLines(raws, VocabOf(raws))
    decreases |raws|
  {
    if raws != [] {
      var n := |raws| - 1;
      VocabIsLastLine(raws[..n]);
      var t := SplitOn(raws[n], ' ');
      var vocab := VocabOf(raws[..n]);
      assert VocabOf(raws) == vocab[(t[0], t[1]) := n];
      hide *;
      assert |t| >= 2;
      OneLine(raws[n], t);
      LineAdded(raws, n, vocab, (t[0], t[1]));
    }
  }

  lemma {:induction false} VocabRanks(raws: seq<string>)
    requires forall i :: 0 <= i < |raws| ==> |SplitOn(raws[i], ' ')| >= 2
    requires |raws| <= NO_RANK
    ensures RanksDistinct(VocabOf(raws))
    ensures forall p :: p in VocabOf(raws) ==> VocabOf(raws)[p] < |raws|
    decreases |raws|
  {
    if raws != [] {
      VocabRanks(raws[..|raws| - 1]);
    }
  }

  method CreateVocab(raws: seq<string>) returns (vocab: Vocab)
    requires forall i :: 0 <= i < |raws| ==> |SplitOn(raws[i], ' ')| >= 2
    ensures vocab == VocabOf(raws) && RanksAreLines(raws, vocab)
  {
    vocab := map[];
    for i := 0 to |raws|
      invariant vocab == VocabOf(raws[..i])
    {
      var t := SplitOn(raws[i], ' ');
      assert raws[..i + 1][..i] == raws[..i];
      vocab := vocab[(t[0], t[1]) := i];
    }
    assert raws[..|raws|] == raws;
    VocabIsLastLine(raws);
  }

  /** Reverses the number table, visiting it in any order. */
  method CreateDecoder(encoder: map<string, int>) returns (decoder: map<int, string>)
    requires forall s, t :: s in encoder && t in encoder && encoder[s] == encoder[t] ==> s == t
    ensures IsInverse(encoder, decoder)
  {
    decoder := map[];
    var keys := ListOf(encoder.Keys);
    for i := 0 to |keys|
      invariant forall j :: 0 <= j < i ==>
                  keys[j] in encoder && encoder[keys[j]] in decoder && decoder[encoder[keys[j]]] == keys[j]
    {
      assert keys[i] in keys;
      decoder := decoder[encoder[keys[i]] := keys[i]];
    }
    forall s | s in encoder ensures encoder[s] in decoder && decoder[encoder[s]] == s {
      assert s in keys;
    }
  }

  /** The package's tables. */
  class Tables {
    const encoder: map<string, int>
    var decoder: map<int, string>
    var vocab: Vocab
    var bpeCache: map<string, string>
    var byteEncoder: map<int, string>
    var byteDecoder: map<string, int>

    ghost predicate Valid()
      reads this
    {
      && IsByteAlphabet(byteEncoder, byteDecoder)
      && IsInverse(encoder, decoder) && IsComplete(encoder, vocab) && RanksDistinct(vocab)
      && IsSound(bpeCache, vocab)
    }

    /** Loads the tables. `raws` are the non-blank merge lines in file order. */
    constructor (encoder: map<string, int>, raws: seq<string>)
      requires |raws| <= NO_RANK
      requires forall i :: 0 <= i < |raws| ==> |SplitOn(raws[i], ' ')| >= 2
      requires IsComplete(encoder, VocabOf(raws))
      ensures Valid() && this.encoder == encoder && bpeCache == map[]
      ensures RanksAreLines(raws, vocab)
    {
      this.encoder := encoder;
      bpeCache := map[];
      var be, bd := InitByteEncoderAndDecoder();
      byteEncoder, byteDecoder := be, bd;
      var d := CreateDecoder(encoder);
      decoder := d;
      var v := CreateVocab(raws);
      VocabRanks(raws);
      vocab := v;
    }

    /** Merges a token, or returns what was remembered for it. */
    method BytePairEncoding(token: string) returns (result: string)
      requires Valid() && token != ""
      modifies this`bpeCache
      ensures Valid() && result == Merged(vocab, token)
    {
      if token in bpeCache {
        return bpeCache[token];
      }
      var word := MergeWord(vocab, Chars(token));
      result := JoinWith(word, ' ');
      bpeCache := bpeCache[token := result];
    }

    /** Encodes a text that the splitter has cut into `matches`. What was
        encoded before makes no difference. */
    method Encode(text: seq<Byte>, matches: seq<seq<Byte>>) returns (bpeTokens: seq<int>)
      requires Valid()
      requires Concat(matches) == text && forall m :: m in matches ==> m != []
      modifies this`bpeCache
      ensures Valid()
      ensures bpeTokens == EncodingOf(encoder, vocab, matches)
      ensures DecodingOf(decoder, byteDecoder, bpeTokens) == text
    {
      DecodeUndoesEncode(encoder, decoder, vocab, byteEncoder, byteDecoder, matches);
      if |text| == 0 {
        if matches != [] { PiecesMakeText(matches); }
        return [];
      }
      bpeTokens := [];
      for i := 0 to |matches|
        invariant Valid()
        invariant bpeTokens == EncodingOf(encoder, vocab, matches[..i])
      {
        assert matches[i] in matches;
        var more := EncodePiece(matches[i]);
        bpeTokens := bpeTokens + more;
        assert matches[..i + 1][..i] == matches[..i];
      }
      assert matches[..|matches|] == matches;
    }

    method EncodePiece(piece: seq<Byte>) returns (bpeTokens: seq<int>)
      requires Valid() && piece != []
      modifies this`bpeCache
      ensures Valid()
      ensures bpeTokens == Numbers(encoder, Encoding(vocab, Chars(Spelling(piece))))
    {
      var ts := SpellPiece(byteEncoder, byteDecoder, piece);
      var token := Concat(ts);
      ConcatOfChars(Spelling(piece));
      var merged := BytePairEncoding(token);
      ghost var word := Encoding(vocab, Chars(token));
      MergedPiece(encoder, vocab, piece);
      SplitUndoesJoin(word, ' ');
      bpeTokens := NumberSymbols(encoder, SplitOn(merged, ' '));
    }

    method Decode(tokens: seq<int>) returns (bytes: seq<Byte>)
      ensures bytes == DecodingOf(decoder, byteDecoder, tokens)
    {
      var t := CollectTexts(decoder, tokens);
      bytes := CollectBytes(byteDecoder, Concat(t));
    }
  }
}
