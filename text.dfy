/**
 String operations the converter takes from Rust's standard library:
 substring search, `str::split` on a string pattern, `str::replace(pattern, "")`
 and `str::lines`. Strings are sequences of characters.
 */
module Text {
  import opened Wrappers

  /** `pat` occurs in `s` starting at index `i`. */
  predicate MatchAt(s: string, pat: string, i: nat) {
    i + |pat| <= |s| && s[i..i + |pat|] == pat
  }

  /** `pat` occurs nowhere in `s`. */
  ghost predicate NoMatch(s: string, pat: string) {
    forall i: nat :: !MatchAt(s, pat, i)
  }

  /** The leftmost occurrence of `pat` in `s` that starts at or after `from`. */
  function Find(s: string, pat: string, from: nat): (r: Option<nat>)
    requires pat != []
    ensures r.Some? ==> from <= r.value && MatchAt(s, pat, r.value)
    ensures r.Some? ==> forall j: nat :: from <= j < r.value ==> !MatchAt(s, pat, j)
    ensures r.None? ==> forall j: nat :: from <= j ==> !MatchAt(s, pat, j)
    decreases |s| - from
  {
    if from + |pat| > |s| then None
    else if MatchAt(s, pat, from) then Some(from)
    else Find(s, pat, from + 1)
  }

  /** `str::split` with a non-empty pattern: the pieces between the leftmost
      non-overlapping occurrences of `pat`, always at least one piece. */
  function Split(s: string, pat: string): (r: seq<string>)
    requires pat != []
    ensures |r| >= 1
    ensures |r| == 1 <==> Find(s, pat, 0).None?
    decreases |s|
  {
    match Find(s, pat, 0)
    case None => [s]
    case Some(i) => [s[..i]] + Split(s[i + |pat|..], pat)
  }

  /** `str::replace(pat, "")`: one left-to-right pass that deletes every
      leftmost non-overlapping occurrence of `pat`. An empty pattern deletes nothing. */
  function RemoveAll(s: string, pat: string): (r: string)
    ensures |r| <= |s|
    decreases |s|
  {
    if pat == [] then s
    else match Find(s, pat, 0)
      case None => s
      case Some(i) => s[..i] + RemoveAll(s[i + |pat|..], pat)
  }

  /** The pieces glued together. */
  function Concat(parts: seq<string>): string {
    if parts == [] then "" else parts[0] + Concat(parts[1..])
  }

  /** The pieces glued together with `sep` between neighbours. */
  function Join(parts: seq<string>, sep: string): string {
    if parts == [] then ""
    else if |parts| == 1 then parts[0]
    else parts[0] + sep + Join(parts[1..], sep)
  }

  /** Drops one trailing carriage return. */
  function StripCR(line: string): string {
    if line != [] && line[|line| - 1] == '\r' then line[..|line| - 1] else line
  }

  /** `str::lines`: the text cut at each newline, with one trailing carriage
      return dropped from every line; a final newline starts no further line. */
  function Lines(s: string): seq<string>
    decreases |s|
  {
    if s == [] then []
    else match Find(s, "\n", 0)
      case None => [StripCR(s)]
      case Some(i) => [StripCR(s[..i])] + Lines(s[i + 1..])
  }

  /** Every line followed by a newline, as a sequence of `writeln!` calls writes them. */
  function Unlines(ls: seq<string>): string {
    if ls == [] then "" else ls[0] + "\n" + Unlines(ls[1..])
  }

  // ---------------------------------------------------------------- search

  lemma {:induction false} MatchAtSingle(s: string, c: char, i: nat)
    ensures MatchAt(s, [c], i) <==> i < |s| && s[i] == c
  {
    if i < |s| {
      assert s[i..i + 1] == [s[i]];
    }
  }

  /** The search from the start finds nothing exactly when the pattern occurs nowhere. */
  lemma {:induction false} NoMatchFind(s: string, pat: string)
    requires pat != []
    ensures Find(s, pat, 0).None? <==> NoMatch(s, pat)
  {
  }

  /** A one-character pattern occurs nowhere exactly when the character is absent. */
  lemma {:induction false} NoMatchSingle(s: string, c: char)
    ensures NoMatch(s, [c]) <==> c !in s
  {
    if c in s {
      var i :| 0 <= i < |s| && s[i] == c;
      MatchAtSingle(s, c, i);
    } else {
      forall i: nat ensures !MatchAt(s, [c], i) {
        MatchAtSingle(s, c, i);
      }
    }
  }

  /** The first occurrence of a character that `a` does not contain is right after `a`. */
  lemma {:induction false} FindAfterPrefix(a: string, c: char, b: string)
    requires c !in a
    ensures Find(a + [c] + b, [c], 0) == Some(|a|)
  {
    var s := a + [c] + b;
    MatchAtSingle(s, c, |a|);
    forall j: nat | j < |a| ensures !MatchAt(s, [c], j) {
      MatchAtSingle(s, c, j);
      assert s[j] == a[j];
    }
  }

  /** A match that ends inside `s` is unaffected by text appended to `s`. */
  lemma {:induction false} MatchAtExtend(s: string, t: string, pat: string, j: nat)
    requires j + |pat| <= |s|
    ensures MatchAt(s + t, pat, j) <==> MatchAt(s, pat, j)
  {
    assert (s + t)[j..j + |pat|] == s[j..j + |pat|];
  }

  lemma {:induction false} FindExtend(s: string, t: string, pat: string)
    requires pat != [] && Find(s, pat, 0).Some?
    ensures Find(s + t, pat, 0) == Find(s, pat, 0)
  {
    var i := Find(s, pat, 0).value;
    MatchAtExtend(s, t, pat, i);
    forall j: nat | j < i ensures !MatchAt(s + t, pat, j) {
      MatchAtExtend(s, t, pat, j);
    }
  }

  // ----------------------------------------------------------------- split

  /** A text is the part before a match, the match and the part after it. */
  lemma {:induction false} SliceAround(s: string, pat: string, i: nat)
    requires MatchAt(s, pat, i)
    ensures s == s[..i] + pat + s[i + |pat|..]
  {
    assert s == s[..i] + s[i..i + |pat|] + s[i + |pat|..];
  }

  /** A split has a single field exactly when the pattern occurs nowhere. */
  lemma {:induction false} SplitSingle(s: string, pat: string)
    requires pat != []
    ensures |Split(s, pat)| == 1 <==> NoMatch(s, pat)
  {
    NoMatchFind(s, pat);
  }

  /** Splitting and re-joining with the same pattern gives back the text. */
  lemma {:induction false} JoinSplit(s: string, pat: string)
    requires pat != []
    ensures Join(Split(s, pat), pat) == s
    decreases |s|
  {
    var f := Find(s, pat, 0);
    if f.None? {
      assert Split(s, pat) == [s];
    } else {
      var i := f.value;
      var rest := s[i + |pat|..];
      SplitFound(s, pat, i);
      JoinSplit(rest, pat);
      JoinCons(s[..i], Split(rest, pat), pat);
      SliceAround(s, pat, i);
    }
  }

  /** A split with a first match: the text before it, then the split of the rest. */
  lemma {:induction false} SplitFound(s: string, pat: string, i: nat)
    requires pat != [] && Find(s, pat, 0) == Some(i)
    ensures Split(s, pat) == [s[..i]] + Split(s[i + |pat|..], pat)
  {
  }

  lemma {:induction false} JoinCons(first: string, parts: seq<string>, sep: string)
    requires parts != []
    ensures Join([first] + parts, sep) == first + sep + Join(parts, sep)
  {
    assert ([first] + parts)[1..] == parts;
  }

  /** `a` can stand before the delimiter `pat` as a field: the first occurrence
      of `pat` in `a + pat` is the appended one, so `a` holds no occurrence of
      `pat`, not even one that runs into the appended delimiter. */
  predicate EndsAtDelimiter(a: string, pat: string) {
    pat != [] && Find(a + pat, pat, 0) == Some(|a|)
  }

  /** A field that lacks a one-character delimiter ends at the appended delimiter. */
  lemma {:induction false} SingleField(a: string, c: char)
    requires c !in a
    ensures EndsAtDelimiter(a, [c])
  {
    FindAfterPrefix(a, c, []);
    assert a + [c] + [] == a + [c];
  }

  /** A field that ends at the first occurrence of the delimiter after it holds
      no occurrence itself, so it splits into just itself. */
  lemma {:induction false} FieldAlone(a: string, pat: string)
    requires EndsAtDelimiter(a, pat)
    ensures NoMatch(a, pat)
    ensures Split(a, pat) == [a]
  {
    forall j: nat ensures !MatchAt(a, pat, j) {
      if MatchAt(a, pat, j) {
        MatchAtExtend(a, pat, pat, j);
      }
    }
    assert Find(a, pat, 0).None?;
  }

  /** The text before the first occurrence of the delimiter is the first field,
      and splitting goes on after that occurrence. */
  lemma {:induction false} SplitAtFirst(a: string, pat: string, b: string)
    requires EndsAtDelimiter(a, pat)
    ensures Split(a + pat + b, pat) == [a] + Split(b, pat)
  {
    var s := a + pat + b;
    FindExtend(a + pat, b, pat);
    assert s[..|a|] == a;
    assert s[|a| + |pat|..] == b;
  }

  /** Two such fields around the delimiter split into exactly those two. */
  lemma {:induction false} SplitTwo(a: string, pat: string, b: string)
    requires EndsAtDelimiter(a, pat) && EndsAtDelimiter(b, pat)
    ensures Split(a + pat + b, pat) == [a, b]
  {
    SplitAtFirst(a, pat, b);
    FieldAlone(b, pat);
  }

  /** With a second delimiter, the first two fields are still those two. */
  lemma {:induction false} SplitThree(a: string, pat: string, b: string, rest: string)
    requires EndsAtDelimiter(a, pat) && EndsAtDelimiter(b, pat)
    ensures |Split(a + pat + b + pat + rest, pat)| >= 2
    ensures Split(a + pat + b + pat + rest, pat)[0] == a && Split(a + pat + b + pat + rest, pat)[1] == b
  {
    var s := a + pat + (b + pat + rest);
    assert a + pat + b + pat + rest == s;
    SplitAtFirst(a, pat, b + pat + rest);
    SplitAtFirst(b, pat, rest);
    assert Split(s, pat) == [a] + ([b] + Split(rest, pat));
  }

  /** Joining fields with a delimiter that first occurs, after each field, where
      the join puts it, and splitting again, gives back the fields. */
  lemma {:induction false} SplitJoin(parts: seq<string>, pat: string)
    requires pat != [] && |parts| >= 1
    requires forall i :: 0 <= i < |parts| ==> EndsAtDelimiter(parts[i], pat)
    ensures Split(Join(parts, pat), pat) == parts
    decreases |parts|
  {
    if |parts| == 1 {
      FieldAlone(parts[0], pat);
    } else {
      var tail := parts[1..];
      assert forall i :: 0 <= i < |tail| ==> tail[i] == parts[i + 1];
      SplitJoin(tail, pat);
      SplitAtFirst(parts[0], pat, Join(tail, pat));
      assert parts == [parts[0]] + tail;
    }
  }

  /** The same for a one-character delimiter: fields that lack the character
      come back unchanged. */
  lemma {:induction false} SplitJoinSingle(parts: seq<string>, c: char)
    requires |parts| >= 1
    requires forall i :: 0 <= i < |parts| ==> c !in parts[i]
    ensures Split(Join(parts, [c]), [c]) == parts
  {
    forall i | 0 <= i < |parts| ensures EndsAtDelimiter(parts[i], [c]) {
      SingleField(parts[i], c);
    }
    SplitJoin(parts, [c]);
  }

  /** Every piece of a split is made of characters of the text. */
  lemma {:induction false} SplitKeepsAbsent(s: string, pat: string, c: char)
    requires pat != [] && c !in s
    ensures forall j :: 0 <= j < |Split(s, pat)| ==> c !in Split(s, pat)[j]
    decreases |s|
  {
    match Find(s, pat, 0)
    case None =>
    case Some(i) =>
      var rest := s[i + |pat|..];
      SplitKeepsAbsent(rest, pat, c);
      assert c !in s[..i];
      assert c !in rest;
  }

  // ------------------------------------------------------------ remove all

  /** Removal is the concatenation of the pieces the pattern separates. */
  lemma {:induction false} RemoveAllIsConcatOfSplit(s: string, pat: string)
    requires pat != []
    ensures RemoveAll(s, pat) == Concat(Split(s, pat))
    decreases |s|
  {
    var f := Find(s, pat, 0);
    if f.None? {
      assert Split(s, pat) == [s] && RemoveAll(s, pat) == s;
      ConcatCons(s, []);
    } else {
      var i := f.value;
      var rest := s[i + |pat|..];
      SplitFound(s, pat, i);
      assert RemoveAll(s, pat) == s[..i] + RemoveAll(rest, pat);
      RemoveAllIsConcatOfSplit(rest, pat);
      ConcatCons(s[..i], Split(rest, pat));
    }
  }

  lemma {:induction false} ConcatCons(first: string, parts: seq<string>)
    ensures Concat([first] + parts) == first + Concat(parts)
  {
    assert ([first] + parts)[1..] == parts;
  }

  /** Removal leaves the text unchanged exactly when there is nothing to remove. */
  lemma {:induction false} RemoveAllUnchanged(s: string, pat: string)
    ensures RemoveAll(s, pat) == s <==> pat == [] || NoMatch(s, pat)
  {
    if pat != [] {
      match Find(s, pat, 0)
      case None =>
      case Some(i) =>
        assert |RemoveAll(s, pat)| < |s|;
    }
  }

  /** A text shorter than the pattern has nothing to remove. */
  lemma {:induction false} RemoveAllShort(s: string, pat: string)
    requires |s| < |pat|
    ensures RemoveAll(s, pat) == s
  {
  }

  /** An occurrence at the very start is removed and the rest is processed. */
  lemma {:induction false} RemoveAllLeading(pat: string, x: string)
    requires pat != []
    ensures RemoveAll(pat + x, pat) == RemoveAll(x, pat)
  {
    var s := pat + x;
    assert MatchAt(s, pat, 0) by { assert s[0..|pat|] == pat; }
    assert s[..0] == [];
    assert s[|pat|..] == x;
  }

  /** Removal is one pass, not repeated until no match is left: deleting "ab"
      from "aabb" leaves "ab", which still contains "ab". */
  lemma {:induction false} RemoveAllSinglePass()
    ensures RemoveAll("aabb", "ab") == "ab"
    ensures !NoMatch(RemoveAll("aabb", "ab"), "ab")
  {
    var s := "aabb";
    assert !MatchAt(s, "ab", 0) by { assert s[0..2][1] == 'a'; }
    assert MatchAt(s, "ab", 1) by { assert s[1..3] == "ab"; }
    assert s[..1] == "a" && s[3..] == "b";
    assert RemoveAll("b", "ab") == "b";
    assert MatchAt("ab", "ab", 0) by { assert "ab"[0..2] == "ab"; }
  }

  /** Removal introduces no character that the text lacks. */
  lemma {:induction false} RemoveAllKeepsAbsent(s: string, pat: string, c: char)
    requires c !in s
    ensures c !in RemoveAll(s, pat)
    decreases |s|
  {
    if pat != [] {
      match Find(s, pat, 0)
      case None =>
      case Some(i) =>
        var rest := s[i + |pat|..];
        RemoveAllKeepsAbsent(rest, pat, c);
        assert c !in s[..i];
        assert c !in rest;
    }
  }

  // ----------------------------------------------------------------- lines

  lemma {:induction false} UnlinesAppend(a: seq<string>, b: seq<string>)
    ensures Unlines(a + b) == Unlines(a) + Unlines(b)
    decreases |a|
  {
    if a == [] {
      assert a + b == b;
    } else {
      assert (a + b)[0] == a[0];
      assert (a + b)[1..] == a[1..] + b;
      UnlinesAppend(a[1..], b);
      assert Unlines(a + b) == a[0] + "\n" + (Unlines(a[1..]) + Unlines(b));
    }
  }

  /** The first line runs up to the first newline. */
  lemma {:induction false} LinesCons(first: string, rest: string)
    requires '\n' !in first
    ensures Lines(first + "\n" + rest) == [StripCR(first)] + Lines(rest)
  {
    var s := first + "\n" + rest;
    assert s == first + ['\n'] + rest;
    FindAfterPrefix(first, '\n', rest);
    assert s[..|first|] == first;
    assert s[|first| + 1..] == rest;
  }

  /** Text without a newline is one line. */
  lemma {:induction false} LinesSingle(s: string)
    requires s != [] && '\n' !in s
    ensures Lines(s) == [StripCR(s)]
  {
    NoMatchSingle(s, '\n');
  }

  /** No line contains a newline. */
  lemma {:induction false} LinesHaveNoNewline(s: string)
    ensures forall j :: 0 <= j < |Lines(s)| ==> '\n' !in Lines(s)[j]
    decreases |s|
  {
    if s != [] {
      match Find(s, "\n", 0)
      case None =>
        NoMatchSingle(s, '\n');
      case Some(i) =>
        LinesHaveNoNewline(s[i + 1..]);
        assert '\n' !in StripCR(s[..i]) by {
          if '\n' in StripCR(s[..i]) {
            var k :| 0 <= k < |StripCR(s[..i])| && StripCR(s[..i])[k] == '\n';
            assert s[k] == '\n';
            MatchAtSingle(s, '\n', k);
          }
        }
    }
  }

  /** A final newline adds no extra empty line. */
  lemma {:induction false} LinesTrailingNewline(s: string)
    requires s != [] && s[|s| - 1] != '\n'
    ensures Lines(s + "\n") == Lines(s)
    decreases |s|
  {
    match Find(s, "\n", 0)
    case None =>
      NoMatchSingle(s, '\n');
      FindAfterPrefix(s, '\n', []);
      assert s + "\n" == s + ['\n'] + [];
      assert (s + "\n")[..|s|] == s;
      assert (s + "\n")[|s| + 1..] == [];
    case Some(i) =>
      FindExtend(s, "\n", "\n");
      MatchAtSingle(s, '\n', i);
      var rest := s[i + 1..];
      assert rest != [] && rest[|rest| - 1] == s[|s| - 1];
      LinesTrailingNewline(rest);
      assert (s + "\n")[..i] == s[..i];
      assert (s + "\n")[i + 1..] == rest + "\n";
  }

  /** Lines that hold no newline and do not end in a carriage return come back
      unchanged from writing them out and splitting the text into lines. */
  lemma {:induction false} LinesOfUnlines(ls: seq<string>)
    requires forall j :: 0 <= j < |ls| ==> '\n' !in ls[j] && StripCR(ls[j]) == ls[j]
    ensures Lines(Unlines(ls)) == ls
    decreases |ls|
  {
    if ls != [] {
      var rest := Unlines(ls[1..]);
      LinesOfUnlines(ls[1..]);
      var s := ls[0] + ['\n'] + rest;
      assert Unlines(ls) == s;
      FindAfterPrefix(ls[0], '\n', rest);
      assert s[..|ls[0]|] == ls[0];
      assert s[|ls[0]| + 1..] == rest;
    }
  }

  /** Text without carriage returns that is empty or ends in a newline is
      rebuilt exactly from its lines. */
  lemma {:induction false} UnlinesOfLines(s: string)
    requires '\r' !in s
    requires s == [] || s[|s| - 1] == '\n'
    ensures Unlines(Lines(s)) == s
    decreases |s|
  {
    if s != [] {
      MatchAtSingle(s, '\n', |s| - 1);
      var i := Find(s, "\n", 0).value;
      var line := s[..i];
      var rest := s[i + 1..];
      assert Lines(s) == [StripCR(line)] + Lines(rest);
      MatchAtSingle(s, '\n', i);
      assert '\r' !in rest;
      UnlinesOfLines(rest);
      assert StripCR(line) == line by {
        if line != [] { assert line[i - 1] == s[i - 1]; }
      }
      assert ([line] + Lines(rest))[1..] == Lines(rest);
      assert Unlines(Lines(s)) == line + "\n" + rest;
      SliceAround(s, "\n", i);
    }
  }
}
