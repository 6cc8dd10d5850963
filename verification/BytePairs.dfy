/** Byte-pair merging: what the ranked greedy merge computes for a word. */
module BytePairs {
  import opened GoMaps
  import opened Texts

  /** Ranks of the mergeable pairs. */
  type Vocab = map<(string, string), int>

  /** Larger than every rank; stands for pairs without one. */
  const NO_RANK: int := 100000000000

  ghost predicate RanksDistinct(vocab: Vocab) {
    && (forall p :: p in vocab ==> 0 <= vocab[p] < NO_RANK)
    && (forall p, q :: p in vocab && q in vocab && vocab[p] == vocab[q] ==> p == q)
  }

  /** The pair occurs in the word at some place. */
  ghost predicate IsAdjacent(word: seq<string>, p: (string, string)) {
    exists i :: 0 < i < |word| && word[i - 1] == p.0 && word[i] == p.1
  }

  /** A lowest-ranked pair of the word. */
  ghost predicate IsBest(vocab: Vocab, word: seq<string>, p: (string, string)) {
    && IsAdjacent(word, p) && p in vocab
    && forall q :: IsAdjacent(word, q) && q in vocab ==> vocab[p] <= vocab[q]
  }

  ghost predicate IsFinished(vocab: Vocab, word: seq<string>) {
    forall p :: IsAdjacent(word, p) ==> p !in vocab
  }

  /** Replaces the occurrences of the pair, from the left and without overlap. */
  function Merge(word: seq<string>, first: string, second: string): (merged: seq<string>)
    ensures |merged| <= |word|
  {
    if |word| < 2 then word
    else if word[0] == first && word[1] == second then [first + second] + Merge(word[2..], first, second)
    else [word[0]] + Merge(word[1..], first, second)
  }

  lemma {:induction false} MergeKeepsText(word: seq<string>, first: string, second: string)
    ensures Concat(Merge(word, first, second)) == Concat(word)
  {
    if |word| >= 2 {
      if word[0] == first && word[1] == second {
        MergeKeepsText(word[2..], first, second);
        assert word[1..][1..] == word[2..];
      } else {
        MergeKeepsText(word[1..], first, second);
      }
    }
  }

  lemma {:induction false} MergeShortens(word: seq<string>, first: string, second: string)
    requires IsAdjacent(word, (first, second))
    ensures |Merge(word, first, second)| < |word|
  {
    if !(word[0] == first && word[1] == second) {
      var i :| 0 < i < |word| && word[i - 1] == first && word[i] == second;
      assert word[1..][i - 2] == first && word[1..][i - 1] == second;
      MergeShortens(word[1..], first, second);
    }
  }

  /** A merge brings in no symbol but the product. */
  lemma {:induction false} MergeSymbols(word: seq<string>, first: string, second: string, s: string)
    requires s in Merge(word, first, second)
    ensures s in word || s == first + second
  {
    if |word| >= 2 {
      if word[0] == first && word[1] == second {
        if s != first + second { MergeSymbols(word[2..], first, second, s); }
      } else if s != word[0] {
        MergeSymbols(word[1..], first, second, s);
      }
    }
  }

  /** Symbols before the next occurrence of `first` are kept as they are. */
  lemma {:induction false} MergeSkips(word: seq<string>, first: string, second: string, k: nat)
    requires k <= |word| && forall i :: 0 <= i < k ==> word[i] != first
    ensures Merge(word, first, second) == word[..k] + Merge(word[k..], first, second)
  {
    if k == 0 {
      assert word[0..] == word;
    } else if |word| == 1 {
      assert word[1..] == [];
    } else {
      MergeSkips(word[1..], first, second, k - 1);
      assert word[1..][k - 1..] == word[k..];
      assert word[..k] == [word[0]] + word[1..][..k - 1];
    }
  }

  ghost predicate OccursAt(word: seq<string>, first: string, second: string, i: int) {
    0 <= i < |word| - 1 && word[i] == first && word[i + 1] == second
  }

  ghost predicate IsMark(word: seq<string>, first: string, second: string, at: seq<bool>, i: int)
    requires |at| == |word| && 0 <= i < |word|
  {
    at[i] <==> OccursAt(word, first, second, i) && !(i > 0 && at[i - 1])
  }

  /** Marks the places where the pair begins and is merged: wherever it occurs,
      unless its first half has just been merged. */
  ghost predicate IsGreedy(word: seq<string>, first: string, second: string, at: seq<bool>) {
    && |at| == |word|
    && forall i :: 0 <= i < |word| ==> IsMark(word, first, second, at, i)
  }

  lemma {:induction false} GreedyIsUnique(word: seq<string>, first: string, second: string, at: seq<bool>,
                                          bt: seq<bool>, i: nat)
    requires IsGreedy(word, first, second, at) && IsGreedy(word, first, second, bt) && i < |word|
    ensures at[i] == bt[i]
  {
    assert IsMark(word, first, second, at, i) && IsMark(word, first, second, bt, i);
    if i > 0 {
      GreedyIsUnique(word, first, second, at, bt, i - 1);
    }
  }

  /** The places that were not swallowed by the mark before them, in ascending
      order. */
  ghost predicate AreStarts(at: seq<bool>, starts: seq<int>) {
    && (forall j, k :: 0 <= j < k < |starts| ==> starts[j] < starts[k])
    && (forall i :: i in starts <==> 0 <= i < |at| && !(i > 0 && at[i - 1]))
  }

  ghost predicate IsMergedAt(word: seq<string>, first: string, second: string, at: seq<bool>, i: int, symbol: string)
    requires |at| == |word|
  {
    0 <= i < |word| && symbol == if at[i] then first + second else word[i]
  }

  /** What a merge is, place by place: the symbols that were not swallowed, each
      marked one replaced by the product. */
  ghost predicate IsMerged(word: seq<string>, first: string, second: string, at: seq<bool>, starts: seq<int>,
                           merged: seq<string>) {
    && IsGreedy(word, first, second, at) && AreStarts(at, starts) && |merged| == |starts|
    && forall k :: 0 <= k < |starts| ==> IsMergedAt(word, first, second, at, starts[k], merged[k])
  }

  /** The marks of a word that begins with `n` symbols merged into one. */
  function MarksAfter(n: nat, at: seq<bool>): seq<bool> {
    (if n == 2 then [true, false] else [false]) + at
  }

  function StartsAfter(n: nat, starts: seq<int>): seq<int> {
    [0] + seq(|starts|, k requires 0 <= k < |starts| => starts[k] + n)
  }

  lemma MarksGoOn(word: seq<string>, first: string, second: string, n: nat, at: seq<bool>)
    requires |word| >= 2 && n == (if OccursAt(word, first, second, 0) then 2 else 1)
    requires IsGreedy(word[n..], first, second, at)
    ensures IsGreedy(word, first, second, MarksAfter(n, at))
  {
    var rest, marks := word[n..], MarksAfter(n, at);
    forall i | 0 <= i < |word| ensures IsMark(word, first, second, marks, i) {
      if i >= n {
        assert OccursAt(word, first, second, i) <==> OccursAt(rest, first, second, i - n);
        assert IsMark(rest, first, second, at, i - n);
        assert i - n > 0 ==> marks[i - 1] == at[i - n - 1];
      }
    }
  }

  lemma StartsShift(n: nat, starts: seq<int>, i: int)
    ensures i in StartsAfter(n, starts) <==> i == 0 || i - n in starts
  {
    var places := StartsAfter(n, starts);
    if i in places {
      var k :| 0 <= k < |places| && places[k] == i;
      assert k > 0 ==> i - n == starts[k - 1];
    }
    if i == 0 {
      assert places[0] == 0;
    }
    if i - n in starts {
      var k :| 0 <= k < |starts| && starts[k] == i - n;
      assert places[k + 1] == i;
    }
  }

  lemma StartsGoOn(n: nat, at: seq<bool>, starts: seq<int>)
    requires 1 <= n <= 2 && AreStarts(at, starts)
    ensures AreStarts(MarksAfter(n, at), StartsAfter(n, starts))
  {
    var marks, places := MarksAfter(n, at), StartsAfter(n, starts);
    forall j, k | 0 <= j < k < |places| ensures places[j] < places[k] {
      assert starts[k - 1] in starts;
      assert j > 0 ==> starts[j - 1] < starts[k - 1];
    }
    assert forall i :: i >= n && i < |marks| ==> marks[i] == at[i - n];
    forall i ensures i in places <==> 0 <= i < |marks| && !(i > 0 && marks[i - 1]) {
      hide StartsAfter;
      StartsShift(n, starts, i);
    }
  }

  lemma SymbolGoesOn(word: seq<string>, first: string, second: string, n: nat, at: seq<bool>, i: int, symbol: string)
    requires |word| >= 2 && 1 <= n <= 2 && |at| == |word| - n
    requires IsMergedAt(word[n..], first, second, at, i, symbol)
    ensures IsMergedAt(word, first, second, MarksAfter(n, at), i + n, symbol)
  {
    assert MarksAfter(n, at)[i + n] == at[i];
    assert word[n..][i] == word[i + n];
  }

  lemma MergedGoesOn(word: seq<string>, first: string, second: string, n: nat, at: seq<bool>, starts: seq<int>,
                     merged: seq<string>)
    requires |word| >= 2 && n == (if OccursAt(word, first, second, 0) then 2 else 1)
    requires IsMerged(word[n..], first, second, at, starts, merged)
    requires IsGreedy(word, first, second, MarksAfter(n, at)) && AreStarts(MarksAfter(n, at), StartsAfter(n, starts))
    ensures IsMerged(word, first, second, MarksAfter(n, at), StartsAfter(n, starts),
                     [if n == 2 then first + second else word[0]] + merged)
  {
    hide AreStarts;
    var marks, places := MarksAfter(n, at), StartsAfter(n, starts);
    var longer := [if n == 2 then first + second else word[0]] + merged;
    assert |marks| == |word|;
    hide IsGreedy;
    forall k | 0 <= k < |places| ensures IsMergedAt(word, first, second, marks, places[k], longer[k]) {
      if k > 0 {
        assert IsMergedAt(word[n..], first, second, at, starts[k - 1], merged[k - 1]);
        SymbolGoesOn(word, first, second, n, at, starts[k - 1], merged[k - 1]);
      }
    }
  }

  lemma {:induction false} MergeIsGreedy(word: seq<string>, first: string, second: string)
    returns (at: seq<bool>, starts: seq<int>)
    ensures IsMerged(word, first, second, at, starts, Merge(word, first, second))
  {
    if |word| == 0 {
      at, starts := [], [];
    } else if |word| == 1 {
      at, starts := [false], [0];
    } else {
      var n := if OccursAt(word, first, second, 0) then 2 else 1;
      var restAt, restStarts := MergeIsGreedy(word[n..], first, second);
      at, starts := MarksAfter(n, restAt), StartsAfter(n, restStarts);
      MarksGoOn(word, first, second, n, restAt);
      StartsGoOn(n, restAt, restStarts);
      assert Merge(word, first, second)
          == [if n == 2 then first + second else word[0]] + Merge(word[n..], first, second);
      hide *;
      MergedGoesOn(word, first, second, n, restAt, restStarts, Merge(word[n..], first, second));
    }
  }

  /** Distinct ranks leave no choice. */
  lemma BestIsUnique(vocab: Vocab, word: seq<string>, p: (string, string), q: (string, string))
    requires RanksDistinct(vocab) && IsBest(vocab, word, p) && IsBest(vocab, word, q)
    ensures p == q
  {
  }

  /** The reference: merge a lowest-ranked pair everywhere, and again, until no
      pair has a rank. */
  ghost function Encoding(vocab: Vocab, word: seq<string>): seq<string>
    decreases |word|
  {
    if exists p :: IsBest(vocab, word, p) then
      var p :| IsBest(vocab, word, p);
      MergeShortens(word, p.0, p.1);
      Encoding(vocab, Merge(word, p.0, p.1))
    else word
  }

  /** The number of merging rounds the reference makes. */
  ghost function Rounds(vocab: Vocab, word: seq<string>): nat
    decreases |word|
  {
    if exists p :: IsBest(vocab, word, p) then
      var p :| IsBest(vocab, word, p);
      MergeShortens(word, p.0, p.1);
      1 + Rounds(vocab, Merge(word, p.0, p.1))
    else 0
  }

  lemma EncodingStep(vocab: Vocab, word: seq<string>, p: (string, string))
    requires RanksDistinct(vocab) && IsBest(vocab, word, p)
    ensures Encoding(vocab, word) == Encoding(vocab, Merge(word, p.0, p.1))
    ensures Rounds(vocab, word) == 1 + Rounds(vocab, Merge(word, p.0, p.1))
  {
    forall q | IsBest(vocab, word, q) ensures q == p {
      BestIsUnique(vocab, word, p, q);
    }
  }

  lemma EncodingOfFinished(vocab: Vocab, word: seq<string>)
    requires IsFinished(vocab, word)
    ensures Encoding(vocab, word) == word && Rounds(vocab, word) == 0
  {
  }

  lemma {:induction false} BestBelow(vocab: Vocab, word: seq<string>, p: (string, string), seen: set<(string, string)>)
    requires IsAdjacent(word, p) && p in vocab && p !in seen
    requires forall q :: q in seen ==> q in vocab && vocab[q] > vocab[p]
    ensures exists b :: IsBest(vocab, word, b)
    decreases vocab.Keys - seen
  {
    if !IsBest(vocab, word, p) {
      var q :| IsAdjacent(word, q) && q in vocab && vocab[q] < vocab[p];
      BestBelow(vocab, word, q, seen + {p});
    }
  }

  /** If any pair has a rank, some pair has the lowest. */
  lemma UnfinishedHasBest(vocab: Vocab, word: seq<string>)
    requires !IsFinished(vocab, word)
    ensures exists p :: IsBest(vocab, word, p)
  {
    var p :| IsAdjacent(word, p) && p in vocab;
    BestBelow(vocab, word, p, {});
  }

  /** The encoding spells the same text, cannot be merged any further, and took
      at most one round for each symbol saved. */
  lemma {:induction false} EncodingIsNormalForm(vocab: Vocab, word: seq<string>)
    requires RanksDistinct(vocab)
    ensures Concat(Encoding(vocab, word)) == Concat(word)
    ensures IsFinished(vocab, Encoding(vocab, word))
    ensures Rounds(vocab, word) + |Encoding(vocab, word)| <= |word|
    ensures word != [] ==> Encoding(vocab, word) != []
    decreases |word|
  {
    if IsFinished(vocab, word) {
      EncodingOfFinished(vocab, word);
    } else {
      UnfinishedHasBest(vocab, word);
      var p :| IsBest(vocab, word, p);
      EncodingStep(vocab, word, p);
      MergeShortens(word, p.0, p.1);
      MergeKeepsText(word, p.0, p.1);
      EncodingIsNormalForm(vocab, Merge(word, p.0, p.1));
    }
  }

  /** How the encoding comes about: round by round, a lowest-ranked pair of the
      word is merged, until no pair of the word has a rank. */
  ghost predicate AreRounds(vocab: Vocab, words: seq<seq<string>>, pairs: seq<(string, string)>) {
    && |words| == |pairs| + 1 && IsFinished(vocab, words[|pairs|])
    && forall k :: 0 <= k < |pairs| ==>
         IsBest(vocab, words[k], pairs[k]) && words[k + 1] == Merge(words[k], pairs[k].0, pairs[k].1)
  }

  lemma OneMoreRound(vocab: Vocab, word: seq<string>, p: (string, string), words: seq<seq<string>>,
                     pairs: seq<(string, string)>)
    requires AreRounds(vocab, words, pairs) && IsBest(vocab, word, p) && words[0] == Merge(word, p.0, p.1)
    ensures AreRounds(vocab, [word] + words, [p] + pairs)
    ensures |words| > 0 && ([word] + words)[|pairs| + 1] == words[|pairs|]
  {
    hide IsBest, IsFinished, Merge;
    var ws, ps := [word] + words, [p] + pairs;
    forall k | 0 <= k < |ps| ensures IsBest(vocab, ws[k], ps[k]) && ws[k + 1] == Merge(ws[k], ps[k].0, ps[k].1) {
      if k > 0 {
        assert ws[k] == words[k - 1] && ps[k] == pairs[k - 1] && ws[k + 1] == words[k];
      }
    }
  }

  lemma {:induction false} EncodingByRounds(vocab: Vocab, word: seq<string>)
    returns (words: seq<seq<string>>, pairs: seq<(string, string)>)
    requires RanksDistinct(vocab)
    ensures AreRounds(vocab, words, pairs) && words[0] == word && words[|pairs|] == Encoding(vocab, word)
    decreases |word|
  {
    if IsFinished(vocab, word) {
      EncodingOfFinished(vocab, word);
      words, pairs := [word], [];
    } else {
      UnfinishedHasBest(vocab, word);
      var p :| IsBest(vocab, word, p);
      EncodingStep(vocab, word, p);
      MergeShortens(word, p.0, p.1);
      hide *;
      words, pairs := EncodingByRounds(vocab, Merge(word, p.0, p.1));
      OneMoreRound(vocab, word, p, words, pairs);
      words, pairs := [word] + words, [p] + pairs;
    }
  }

  /** Starting from known symbols, only known symbols are produced. */
  lemma {:induction false} EncodingSymbols(vocab: Vocab, word: seq<string>, known: set<string>, s: string)
    requires RanksDistinct(vocab)
    requires forall t :: t in word ==> t in known
    requires forall p :: p in vocab ==> p.0 + p.1 in known
    requires s in Encoding(vocab, word)
    ensures s in known
    decreases |word|
  {
    if IsFinished(vocab, word) {
      EncodingOfFinished(vocab, word);
    } else {
      UnfinishedHasBest(vocab, word);
      var p :| IsBest(vocab, word, p);
      EncodingStep(vocab, word, p);
      MergeShortens(word, p.0, p.1);
      forall t | t in Merge(word, p.0, p.1) ensures t in known {
        MergeSymbols(word, p.0, p.1, t);
      }
      EncodingSymbols(vocab, Merge(word, p.0, p.1), known, s);
    }
  }

  /** common.IndexArrayWithOffset: the first index at or after the offset, or
      -1. */
  method IndexArrayWithOffset<T(==)>(items: seq<T>, first: T, offset: nat) returns (index: int)
    ensures index == -1 ==> forall i :: offset <= i < |items| ==> items[i] != first
    ensures index != -1 ==> offset <= index < |items| && items[index] == first
                            && forall i :: offset <= i < index ==> items[i] != first
  {
    if |items| < offset {
      return -1;
    }
    for i := offset to |items|
      invariant forall j :: offset <= j < i ==> items[j] != first
    {
      if items[i] == first {
        return i;
      }
    }
    return -1;
  }

  lemma MergeFromIndex(word: seq<string>, first: string, second: string, i: nat, j: nat)
    requires i <= j < |word| && word[j] == first
    requires forall k :: i <= k < j ==> word[k] != first
    ensures var hit := j < |word| - 1 && word[j + 1] == second;
            Merge(word[i..], first, second) ==
              if hit then word[i..j] + [first + second] + Merge(word[j + 2..], first, second)
              else word[i..j] + [word[j]] + Merge(word[j + 1..], first, second)
  {
    MergeSkips(word[i..], first, second, j - i);
    assert word[i..][..j - i] == word[i..j] && word[i..][j - i..] == word[j..];
    assert word[j..][1..] == word[j + 1..];
    if j < |word| - 1 {
      assert word[j..][2..] == word[j + 2..];
    }
  }

  lemma AppendParts<T>(done: seq<T>, a: seq<T>, b: seq<T>, c: seq<T>, rest: seq<T>)
    requires rest == a + b + c
    ensures done + a + b + c == done + rest
  {
  }

  lemma MergeNothing(first: string, second: string)
    ensures Merge([], first, second) == []
  {
  }

  /** The merge loop, jumping from one occurrence of `first` to the next. */
  method MergeLoop(word: seq<string>, first: string, second: string) returns (newWord: seq<string>)
    ensures newWord == Merge(word, first, second)
  {
    newWord := [];
    var i := 0;
    assert word[0..] == word;
    hide Merge;
    while i < |word|
      invariant 0 <= i <= |word|
      invariant newWord + Merge(word[i..], first, second) == Merge(word, first, second)
    {
      var j := IndexArrayWithOffset(word, first, i);
      if j == -1 {
        MergeSkips(word[i..], first, second, |word| - i);
        assert word[i..][..|word| - i] == word[i..] && word[i..][|word| - i..] == [];
        MergeNothing(first, second);
        newWord := newWord + word[i..];
        return;
      }
      MergeFromIndex(word, first, second, i, j);
      ghost var before, rest := newWord, Merge(word[i..], first, second);
      ghost var k := i;
      newWord := newWord + word[i..j];
      i := j;
      if word[i] == first && i < |word| - 1 && word[i + 1] == second {
        newWord := newWord + [first + second];
        i := i + 2;
        AppendParts(before, word[k..j], [first + second], Merge(word[i..], first, second), rest);
      } else {
        newWord := newWord + [word[i]];
        i := i + 1;
        AppendParts(before, word[k..j], [word[j]], Merge(word[i..], first, second), rest);
      }
    }
    MergeNothing(first, second);
    assert word[i..] == [];
  }

  predicate Follows(pairs: map<string, seq<string>>, x: string, y: string) {
    x in pairs && y in pairs[x]
  }

  ghost predicate FollowsBefore(word: seq<string>, n: nat, x: string, y: string) {
    exists j :: 0 < j < n && j < |word| && word[j - 1] == x && word[j] == y
  }

  lemma FollowsNext(word: seq<string>, n: nat, x: string, y: string)
    requires 0 < n < |word|
    ensures FollowsBefore(word, n + 1, x, y) <==> FollowsBefore(word, n, x, y) || (x == word[n - 1] && y == word[n])
  {
  }

  /** Each symbol with the symbols that follow it. */
  method GetPairs(word: seq<string>) returns (result: map<string, seq<string>>)
    requires word != []
    ensures forall p :: IsAdjacent(word, p) <==> Follows(result, p.0, p.1)
    ensures forall x :: x in result ==> result[x] != []
    ensures |word| == 1 <==> result == map[]
  {
    result := map[];
    var prevChar := word[0];
    for i := 1 to |word|
      invariant prevChar == word[i - 1]
      invariant forall x, y :: Follows(result, x, y) <==> FollowsBefore(word, i, x, y)
      invariant forall x :: x in result ==> result[x] != []
      invariant i == 1 ==> result == map[]
      invariant i > 1 ==> word[0] in result
    {
      var curr := word[i];
      ghost var before := result;
      result := result[prevChar := (if prevChar in result then result[prevChar] else []) + [curr]];
      forall x, y ensures Follows(result, x, y) <==> FollowsBefore(word, i + 1, x, y) {
        FollowsNext(word, i, x, y);
        assert Follows(result, x, y) <==> Follows(before, x, y) || (x == prevChar && y == curr);
      }
      prevChar := curr;
    }
    forall p ensures IsAdjacent(word, p) <==> FollowsBefore(word, |word|, p.0, p.1) {
    }
  }

  function RankOf(vocab: Vocab, p: (string, string)): int {
    if p in vocab then vocab[p] else NO_RANK
  }

  /** What has been collected for the pairs seen so far. */
  ghost predicate IsRanking(minPairs: map<int, (string, string)>, vocab: Vocab, seen: set<(string, string)>) {
    && (forall p :: p in seen ==> RankOf(vocab, p) in minPairs)
    && (forall r :: r in minPairs ==> minPairs[r] in seen && r == RankOf(vocab, minPairs[r]))
  }

  lemma RankingStep(minPairs: map<int, (string, string)>, vocab: Vocab, seen: set<(string, string)>,
                    v: (string, string))
    requires IsRanking(minPairs, vocab, seen)
    ensures IsRanking(minPairs[RankOf(vocab, v) := v], vocab, seen + {v})
  {
  }

  /** Collects the pairs by rank; pairs without a rank share one slot. Both maps
      are visited in any order. */
  method RankPairs(vocab: Vocab, pairs: map<string, seq<string>>)
    returns (minPairs: map<int, (string, string)>, ghost seen: set<(string, string)>)
    ensures IsRanking(minPairs, vocab, seen)
    ensures forall x, y :: (x, y) in seen <==> x in pairs && y in pairs[x]
  {
    minPairs, seen := map[], {};
    var keys := ListOf(pairs.Keys);
    for i := 0 to |keys|
      invariant IsRanking(minPairs, vocab, seen)
      invariant forall x, y :: (x, y) in seen <==> x in keys[..i] && y in pairs[x]
    {
      var key := keys[i];
      assert key in keys && keys[..i + 1] == keys[..i] + [key];
      var pair := pairs[key];
      for j := 0 to |pair|
        invariant IsRanking(minPairs, vocab, seen)
        invariant forall x, y :: (x, y) in seen <==> (x in keys[..i] && y in pairs[x]) || (x == key && y in pair[..j])
      {
        var v := (key, pair[j]);
        RankingStep(minPairs, vocab, seen, v);
        minPairs := minPairs[RankOf(vocab, v) := v];
        seen := seen + {v};
        assert pair[..j + 1] == pair[..j] + [pair[j]];
      }
      assert pair[..|pair|] == pair;
    }
    assert keys[..|keys|] == keys;
  }

  lemma ListedKey<T>(keys: seq<int>, m: map<int, T>)
    requires m != map[] && IsListing(keys, m.Keys)
    ensures |keys| > 0
  {
    if k :| k in m {
      assert k in keys;
    }
  }

  /** The first of the sorted keys. */
  method MinKey<T>(m: map<int, T>) returns (minKey: int)
    requires m != map[]
    ensures minKey in m && forall k :: k in m ==> minKey <= k
  {
    var mapkey := ListOf(m.Keys);
    ListedKey(mapkey, m);
    minKey := mapkey[0];
    for i := 1 to |mapkey|
      invariant minKey in mapkey && forall j :: 0 <= j < i ==> minKey <= mapkey[j]
    {
      if mapkey[i] < minKey {
        minKey := mapkey[i];
      }
    }
  }

  /** The pair to merge next: a lowest-ranked one if any pair has a rank. */
  method FindBest(vocab: Vocab, word: seq<string>, pairs: map<string, seq<string>>) returns (biGram: (string, string))
    requires RanksDistinct(vocab)
    requires forall p :: IsAdjacent(word, p) <==> Follows(pairs, p.0, p.1)
    requires pairs != map[] && forall x :: x in pairs ==> pairs[x] != []
    ensures if biGram in vocab then IsBest(vocab, word, biGram) else IsFinished(vocab, word)
  {
    var minPairs;
    ghost var seen;
    minPairs, seen := RankPairs(vocab, pairs);
    assert minPairs != map[] by {
      var x :| x in pairs;
      assert (x, pairs[x][0]) in seen;
    }
    var minKey := MinKey(minPairs);
    biGram := minPairs[minKey];
    forall q | IsAdjacent(word, q) ensures RankOf(vocab, biGram) <= RankOf(vocab, q) {
      assert (q.0, q.1) in seen;
    }
    assert IsAdjacent(word, biGram) by {
      assert (biGram.0, biGram.1) in seen;
    }
  }

  lemma MergeNotEmpty(word: seq<string>, first: string, second: string)
    requires word != []
    ensures Merge(word, first, second) != []
  {
  }

  /** The uncached merge of a word. */
  method MergeWord(vocab: Vocab, word0: seq<string>) returns (word: seq<string>)
    requires RanksDistinct(vocab) && word0 != []
    ensures word == Encoding(vocab, word0)
  {
    word := word0;
    var pairs := GetPairs(word);
    if |pairs| == 0 {
      assert pairs == map[];
      EncodingOfFinished(vocab, word);
      return;
    }
    while true
      invariant |word| > 1 && Encoding(vocab, word) == Encoding(vocab, word0)
      invariant forall p :: IsAdjacent(word, p) <==> Follows(pairs, p.0, p.1)
      invariant pairs != map[] && forall x :: x in pairs ==> pairs[x] != []
      decreases |word|
    {
      var biGram := FindBest(vocab, word, pairs);
      if biGram !in vocab {
        EncodingOfFinished(vocab, word);
        break;
      }
      EncodingStep(vocab, word, biGram);
      MergeShortens(word, biGram.0, biGram.1);
      MergeNotEmpty(word, biGram.0, biGram.1);
      word := MergeLoop(word, biGram.0, biGram.1);
      if |word| == 1 {
        EncodingOfFinished(vocab, word);
        break;
      }
      pairs := GetPairs(word);
    }
  }
}
