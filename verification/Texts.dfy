/** Joining and splitting strings, as Go's strings package does. */
module Texts {

  /** strings.Join with an empty separator. */
  function Concat<T>(parts: seq<seq<T>>): seq<T> {
    if parts == [] then [] else parts[0] + Concat(parts[1..])
  }

  lemma {:induction false} ConcatOfTwo<T>(xs: seq<seq<T>>, ys: seq<seq<T>>)
    ensures Concat(xs + ys) == Concat(xs) + Concat(ys)
  {
    if xs == [] {
      assert xs + ys == ys;
    } else {
      assert (xs + ys)[1..] == xs[1..] + ys;
      ConcatOfTwo(xs[1..], ys);
    }
  }

  lemma ConcatOfOne<T>(x: seq<T>)
    ensures Concat([x]) == x && Concat<T>([]) == []
  {
  }

  /** strings.Split with an empty separator: one string for each character. */
  function Chars(s: string): (cs: seq<string>)
    ensures |cs| == |s| && forall i :: 0 <= i < |s| ==> cs[i] == [s[i]]
  {
    seq(|s|, i requires 0 <= i < |s| => [s[i]])
  }

  lemma {:induction false} ConcatOfChars(s: string)
    ensures Concat(Chars(s)) == s
  {
    if s != "" {
      assert Chars(s)[1..] == Chars(s[1..]);
      ConcatOfChars(s[1..]);
    }
  }

  /** strings.Join with a one-character separator. */
  function JoinWith(parts: seq<string>, sep: char): string {
    if |parts| == 0 then "" else if |parts| == 1 then parts[0] else parts[0] + [sep] + JoinWith(parts[1..], sep)
  }

  /** strings.Split with a one-character separator. */
  function SplitOn(s: string, sep: char): (parts: seq<string>)
    ensures |parts| > 0
  {
    if s == "" then [""]
    else
      var rest := SplitOn(s[1..], sep);
      if s[0] == sep then [""] + rest else [[s[0]] + rest[0]] + rest[1..]
  }

  lemma {:induction false} SplitOfFirst(part: string, rest: string, sep: char)
    requires sep !in part
    ensures SplitOn(part + [sep] + rest, sep) == [part] + SplitOn(rest, sep)
  {
    var s := part + [sep] + rest;
    if part == "" {
      assert s[1..] == rest;
    } else {
      assert s[1..] == part[1..] + [sep] + rest;
      assert part[0] in part && [part[0]] + part[1..] == part;
      SplitOfFirst(part[1..], rest, sep);
    }
  }

  lemma {:induction false} SplitOfOne(part: string, sep: char)
    requires sep !in part
    ensures SplitOn(part, sep) == [part]
  {
    if part != "" {
      assert part[0] in part && [part[0]] + part[1..] == part;
      SplitOfOne(part[1..], sep);
    }
  }

  /** Splitting undoes joining, as long as no part contains the separator. */
  lemma {:induction false} SplitUndoesJoin(parts: seq<string>, sep: char)
    requires parts != [] && forall p :: p in parts ==> sep !in p
    ensures SplitOn(JoinWith(parts, sep), sep) == parts
  {
    assert parts[0] in parts;
    if |parts| == 1 {
      SplitOfOne(parts[0], sep);
    } else {
      assert forall p :: p in parts[1..] ==> p in parts;
      SplitUndoesJoin(parts[1..], sep);
      SplitOfFirst(parts[0], JoinWith(parts[1..], sep), sep);
    }
  }

  /** Joining puts one separator between any two neighbours. */
  lemma {:induction false} JoinOfTwo(xs: seq<string>, ys: seq<string>, sep: char)
    requires xs != [] && ys != []
    ensures JoinWith(xs + ys, sep) == JoinWith(xs, sep) + [sep] + JoinWith(ys, sep)
  {
    if |xs| == 1 {
      assert (xs + ys)[1..] == ys;
    } else {
      assert (xs + ys)[1..] == xs[1..] + ys;
      JoinOfTwo(xs[1..], ys, sep);
    }
  }

  lemma JoinPrepended(c: char, parts: seq<string>, sep: char)
    requires parts != []
    ensures JoinWith([[c] + parts[0]] + parts[1..], sep) == [c] + JoinWith(parts, sep)
    ensures JoinWith([""] + parts, sep) == [sep] + JoinWith(parts, sep)
  {
    assert ([""] + parts)[1..] == parts;
    assert ([[c] + parts[0]] + parts[1..])[1..] == parts[1..];
  }

  /** Splitting cuts a string at every separator and nowhere else. */
  lemma {:induction false} JoinUndoesSplit(s: string, sep: char)
    ensures JoinWith(SplitOn(s, sep), sep) == s
    ensures forall p :: p in SplitOn(s, sep) ==> sep !in p
  {
    if s != "" {
      var rest := SplitOn(s[1..], sep);
      assert SplitOn(s, sep) == if s[0] == sep then [""] + rest else [[s[0]] + rest[0]] + rest[1..];
      assert rest[0] in rest;
      assert s == [s[0]] + s[1..];
      hide SplitOn, JoinWith;
      JoinUndoesSplit(s[1..], sep);
      JoinPrepended(s[0], rest, sep);
    }
  }
}
