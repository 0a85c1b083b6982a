/**
 `create_map`: every input line is split on the delimiter, the base url is
 removed from its first two fields, and the pair is inserted into a map.
 The panics of the source (a missing configuration field, a line with fewer
 than two fields) are error results.
 */
module Redirects {
  import opened Wrappers
  import opened Text
  import opened Settings

  datatype Error =
    | MissingDelimiter        // `config.delimiter.unwrap()` on None
    | MissingUrl              // `config.url.unwrap()` on None
    | MalformedLine(index: nat)  // `pair[1]` out of bounds on this line

  /** The key and value one line contributes: fields 0 and 1 of the split, each
      with every occurrence of `url` removed; nothing when there is no field 1. */
  function ParseLine(line: string, delim: string, url: string): (r: Option<(string, string)>)
    requires delim != []
    ensures r.None? <==> NoMatch(line, delim)
  {
    SplitSingle(line, delim);
    var fields := Split(line, delim);
    if |fields| < 2 then None
    else Some((RemoveAll(fields[0], url), RemoveAll(fields[1], url)))
  }

  /** The pairs of all lines, in order, or the first line that has no second field. */
  function ParseAll(lines: seq<string>, delim: string, url: string): (r: Result<seq<(string, string)>, Error>)
    requires delim != []
    ensures r.Ok? ==> |r.value| == |lines|
    ensures r.Err? ==> r.error.MalformedLine? && r.error.index < |lines|
    decreases |lines|
  {
    if lines == [] then Ok([])
    else
      match ParseAll(lines[..|lines| - 1], delim, url)
      case Err(e) => Err(e)
      case Ok(ps) =>
        match ParseLine(lines[|lines| - 1], delim, url)
        case None => Err(MalformedLine(|lines| - 1))
        case Some(p) => Ok(ps + [p])
  }

  /** The map that inserting the pairs in order into an empty map produces. */
  function FromPairs(ps: seq<(string, string)>): map<string, string>
    decreases |ps|
  {
    if ps == [] then map[]
    else FromPairs(ps[..|ps| - 1])[ps[|ps| - 1].0 := ps[|ps| - 1].1]
  }

  /** What `create_map` returns for these lines and this configuration. */
  function Mapping(lines: seq<string>, config: Config): Result<map<string, string>, Error>
    requires config.delimiter != Some([])
  {
    if config.delimiter.None? then Err(MissingDelimiter)
    else if config.url.None? then Err(MissingUrl)
    else
      match ParseAll(lines, config.delimiter.value, config.url.value)
      case Err(e) => Err(e)
      case Ok(ps) => Ok(FromPairs(ps))
  }

  /** `create_map`: the loop over the lines inserting into `urls`. */
  method CreateMap(lines: seq<string>, config: Config) returns (r: Result<map<string, string>, Error>)
    requires config.delimiter != Some([])
    ensures r == Mapping(lines, config)
  {
    if config.delimiter.None? {
      return Err(MissingDelimiter);
    }
    var delimiter := config.delimiter.value;
    if config.url.None? {
      return Err(MissingUrl);
    }
    var url := config.url.value;
    var urls: map<string, string> := map[];
    ghost var pairs: seq<(string, string)> := [];
    var i := 0;
    while i < |lines|
      invariant 0 <= i <= |lines|
      invariant ParseAll(lines[..i], delimiter, url) == Ok(pairs)
      invariant urls == FromPairs(pairs)
    {
      TakeOneMore(lines, i);
      ParseStep(lines[..i], lines[i], delimiter, url, pairs);
      var pair := Split(lines[i], delimiter);
      if |pair| < 2 {
        ParseAllErrorExtends(lines, i + 1, delimiter, url);
        return Err(MalformedLine(i));
      }
      var key, value := RemoveAll(pair[0], url), RemoveAll(pair[1], url);
      FromPairsSnoc(pairs, (key, value));
      urls := urls[key := value];
      pairs := pairs + [(key, value)];
      i := i + 1;
    }
    assert lines[..i] == lines;
    return Ok(urls);
  }

  /** A prefix one element longer. */
  lemma {:induction false} TakeOneMore(lines: seq<string>, i: nat)
    requires i < |lines|
    ensures lines[..i + 1] == lines[..i] + [lines[i]]
  {
  }

  /** One iteration of `create_map`'s loop, against `ParseAll`. */
  lemma {:induction false} ParseStep(done: seq<string>, line: string, delim: string, url: string, pairs: seq<(string, string)>)
    requires delim != [] && ParseAll(done, delim, url) == Ok(pairs)
    ensures |Split(line, delim)| < 2 ==> ParseAll(done + [line], delim, url) == Err(MalformedLine(|done|))
    ensures |Split(line, delim)| >= 2 ==>
      ParseAll(done + [line], delim, url) ==
        Ok(pairs + [(RemoveAll(Split(line, delim)[0], url), RemoveAll(Split(line, delim)[1], url))])
  {
    ParseAllSnoc(done, line, delim, url);
  }

  /** Inserting one more pair updates the map at its key. */
  lemma {:induction false} FromPairsSnoc(ps: seq<(string, string)>, p: (string, string))
    ensures FromPairs(ps + [p]) == FromPairs(ps)[p.0 := p.1]
  {
    assert (ps + [p])[..|ps|] == ps;
  }

  // ----------------------------------------------------------- one line

  /** Only the first two fields matter: when the delimiter first occurs right
      after the key and right after the value, the pair is the key and the value
      with the url removed, whatever follows a second delimiter. */
  lemma {:induction false} ExtraFieldsIgnored(key: string, value: string, rest: string, delim: string, url: string)
    requires delim != []
    requires EndsAtDelimiter(key, delim) && EndsAtDelimiter(value, delim)
    ensures ParseLine(key + delim + value, delim, url) == Some((RemoveAll(key, url), RemoveAll(value, url)))
    ensures ParseLine(key + delim + value + delim + rest, delim, url) == Some((RemoveAll(key, url), RemoveAll(value, url)))
  {
    SplitTwo(key, delim, value);
    ParseLineFields(key + delim + value, delim, url, key, value);
    SplitThree(key, delim, value, rest);
    ParseLineFields(key + delim + value + delim + rest, delim, url, key, value);
  }

  /** The pair is read off the first two fields. */
  lemma {:induction false} ParseLineFields(line: string, delim: string, url: string, key: string, value: string)
    requires delim != [] && |Split(line, delim)| >= 2
    requires Split(line, delim)[0] == key && Split(line, delim)[1] == value
    ensures ParseLine(line, delim, url) == Some((RemoveAll(key, url), RemoveAll(value, url)))
  {
  }

  /** The one-character case: the key and the value lack the delimiter. */
  lemma {:induction false} ExtraFieldsIgnoredSingle(key: string, value: string, rest: string, c: char, url: string)
    requires c !in key && c !in value
    ensures ParseLine(key + [c] + value, [c], url) == Some((RemoveAll(key, url), RemoveAll(value, url)))
    ensures ParseLine(key + [c] + value + [c] + rest, [c], url) == Some((RemoveAll(key, url), RemoveAll(value, url)))
  {
    SingleField(key, c);
    SingleField(value, c);
    ExtraFieldsIgnored(key, value, rest, [c], url);
  }

  /** "a,b,c" under the default configuration gives the pair a -> b. */
  lemma {:induction false} ExtraFieldsExample()
    ensures ParseLine("a,b,c", ",", "https://example.org") == Some(("a", "b"))
  {
    assert "a,b,c" == "a" + [','] + "b" + [','] + "c";
    ExtraFieldsIgnoredSingle("a", "b", "c", ',', "https://example.org");
  }

  /** A line whose two fields each start with the url loses it from both. */
  lemma {:induction false} PrefixedPair(key: string, value: string, c: char, url: string)
    requires url != [] && c !in url && c !in key && c !in value
    requires |key| < |url| && |value| < |url|
    ensures ParseLine(url + key + [c] + (url + value), [c], url) == Some((key, value))
  {
    assert url + key + [c] + (url + value) == (url + key) + [c] + (url + value);
    ExtraFieldsIgnoredSingle(url + key, url + value, [], c, url);
    RemoveAllLeading(url, key);
    RemoveAllLeading(url, value);
    RemoveAllShort(key, url);
    RemoveAllShort(value, url);
  }

  /** The url is removed from both fields under the default configuration. */
  lemma {:induction false} DefaultUrlExample()
    ensures ParseLine("https://example.org/a,https://example.org/b", DefaultDelimiter, DefaultUrl)
         == Some(("/a", "/b"))
  {
    DefaultUrlLine();
    PrefixedPair("/a", "/b", ',', DefaultUrl);
  }

  lemma {:induction false} DefaultUrlLine()
    ensures "https://example.org/a,https://example.org/b" == DefaultUrl + "/a" + [','] + (DefaultUrl + "/b")
  {
  }

  /** A line without the delimiter, the empty line among them, yields no pair. */
  lemma {:induction false} LineWithoutDelimiter(line: string, c: char, url: string)
    requires c !in line
    ensures ParseLine(line, [c], url).None?
    ensures ParseLine([], [c], url).None?
  {
    NoMatchSingle(line, c);
    NoMatchSingle([], c);
  }

  /** A key or value lacks every character that its line lacks. */
  lemma {:induction false} ParseLineKeepsAbsent(line: string, delim: string, url: string, c: char)
    requires delim != [] && c !in line && ParseLine(line, delim, url).Some?
    ensures c !in ParseLine(line, delim, url).value.0 && c !in ParseLine(line, delim, url).value.1
  {
    var fields := Split(line, delim);
    SplitKeepsAbsent(line, delim, c);
    RemoveAllKeepsAbsent(fields[0], url, c);
    RemoveAllKeepsAbsent(fields[1], url, c);
  }

  // ------------------------------------------------------------ parse all

  /** Parsing one more line: the earlier error, or the new line's error, or its pair appended. */
  lemma {:induction false} ParseAllSnoc(lines: seq<string>, line: string, delim: string, url: string)
    requires delim != []
    ensures ParseAll(lines + [line], delim, url) ==
      match ParseAll(lines, delim, url)
      case Err(e) => Err(e)
      case Ok(ps) =>
        match ParseLine(line, delim, url)
        case None => Err(MalformedLine(|lines|))
        case Some(p) => Ok(ps + [p])
  {
    assert (lines + [line])[..|lines|] == lines;
  }

  /** Two lines of which the first parses: their two pairs, or the second line's error. */
  lemma {:induction false} ParseAllTwo(first: string, second: string, delim: string, url: string)
    requires delim != []
    requires ParseLine(first, delim, url).Some?
    ensures ParseLine(second, delim, url).Some? ==>
      ParseAll([first, second], delim, url) ==
        Ok([ParseLine(first, delim, url).value, ParseLine(second, delim, url).value])
    ensures ParseLine(second, delim, url).None? ==> ParseAll([first, second], delim, url) == Err(MalformedLine(1))
  {
    ParseAllOne(first, delim, url);
    ParseAllSnoc([first], second, delim, url);
    assert [first] + [second] == [first, second];
    var p := ParseLine(first, delim, url).value;
    if ParseLine(second, delim, url).Some? {
      var q := ParseLine(second, delim, url).value;
      assert [p] + [q] == [p, q];
    }
  }

  /** A single line that parses gives its one pair. */
  lemma {:induction false} ParseAllOne(line: string, delim: string, url: string)
    requires delim != [] && ParseLine(line, delim, url).Some?
    ensures ParseAll([line], delim, url) == Ok([ParseLine(line, delim, url).value])
  {
    ParseAllSnoc([], line, delim, url);
    assert [] + [line] == [line];
    var p := ParseLine(line, delim, url).value;
    assert [] + [p] == [p];
  }

  /** Once a prefix of the lines fails, the whole input fails with the same error. */
  lemma {:induction false} ParseAllErrorExtends(lines: seq<string>, k: nat, delim: string, url: string)
    requires delim != [] && k <= |lines|
    requires ParseAll(lines[..k], delim, url).Err?
    ensures ParseAll(lines, delim, url) == ParseAll(lines[..k], delim, url)
    decreases |lines| - k
  {
    if k < |lines| {
      assert lines[..k + 1][..k] == lines[..k];
      ParseAllErrorExtends(lines, k + 1, delim, url);
    } else {
      assert lines[..k] == lines;
    }
  }

  /** Each line contributes exactly one pair, the one `ParseLine` gives it. */
  lemma {:induction false} ParseAllPairs(lines: seq<string>, delim: string, url: string)
    requires delim != []
    requires ParseAll(lines, delim, url).Ok?
    ensures forall i :: 0 <= i < |lines| ==>
      ParseLine(lines[i], delim, url) == Some(ParseAll(lines, delim, url).value[i])
    decreases |lines|
  {
    if lines != [] {
      var init := lines[..|lines| - 1];
      ParseAllPairs(init, delim, url);
      forall i | 0 <= i < |lines| - 1
        ensures ParseLine(lines[i], delim, url) == Some(ParseAll(lines, delim, url).value[i])
      {
        assert lines[i] == init[i];
      }
    }
  }

  /** The lines parse exactly when every one of them contains the delimiter;
      otherwise the error names the first line that does not. */
  lemma {:induction false} ParseAllError(lines: seq<string>, delim: string, url: string, k: nat)
    requires delim != []
    ensures ParseAll(lines, delim, url).Ok? <==> forall i :: 0 <= i < |lines| ==> !NoMatch(lines[i], delim)
    ensures ParseAll(lines, delim, url) == Err(MalformedLine(k)) <==>
      k < |lines| && NoMatch(lines[k], delim) && forall i :: 0 <= i < k ==> !NoMatch(lines[i], delim)
    decreases |lines|
  {
    if lines != [] {
      var init, last := lines[..|lines| - 1], lines[|lines| - 1];
      assert lines == init + [last];
      ParseAllSnoc(init, last, delim, url);
      ParseAllError(init, delim, url, k);
      assert forall i :: 0 <= i < |init| ==> init[i] == lines[i];
      if ParseAll(init, delim, url).Err? {
        assert !forall i :: 0 <= i < |init| ==> !NoMatch(init[i], delim);
      } else if ParseLine(last, delim, url).None? {
        assert NoMatch(lines[|lines| - 1], delim);
      }
    }
  }

  // ----------------------------------------------------------- insertion

  /** The keys of the map are the keys of the pairs. */
  lemma {:induction false} FromPairsKeys(ps: seq<(string, string)>)
    ensures FromPairs(ps).Keys == set i | 0 <= i < |ps| :: ps[i].0
    decreases |ps|
  {
    if ps != [] {
      var init := ps[..|ps| - 1];
      FromPairsKeys(init);
      var keys := set i | 0 <= i < |ps| :: ps[i].0;
      var initKeys := set i | 0 <= i < |init| :: init[i].0;
      assert keys == initKeys + {ps[|ps| - 1].0} by {
        forall k | k in keys ensures k in initKeys + {ps[|ps| - 1].0} {
          var i :| 0 <= i < |ps| && ps[i].0 == k;
          if i < |init| { assert init[i] == ps[i]; }
        }
        forall k | k in initKeys ensures k in keys {
          var i :| 0 <= i < |init| && init[i].0 == k;
          assert ps[i] == init[i];
        }
      }
    }
  }

  /** Last write wins: a key maps to the value of the last pair carrying it. */
  lemma {:induction false} LastWriteWins(ps: seq<(string, string)>, i: nat)
    requires i < |ps|
    requires forall j :: i < j < |ps| ==> ps[j].0 != ps[i].0
    ensures ps[i].0 in FromPairs(ps) && FromPairs(ps)[ps[i].0] == ps[i].1
    decreases |ps|
  {
    if i < |ps| - 1 {
      var init := ps[..|ps| - 1];
      forall j | i < j < |init| ensures init[j].0 != init[i].0 {
        assert init[j] == ps[j];
      }
      LastWriteWins(init, i);
    }
  }

  /** There are at most as many entries as pairs, and exactly as many when the
      keys of the pairs are distinct. */
  lemma {:induction false} FromPairsSize(ps: seq<(string, string)>)
    ensures |FromPairs(ps)| <= |ps|
    ensures (forall i, j :: 0 <= i < j < |ps| ==> ps[i].0 != ps[j].0) ==> |FromPairs(ps)| == |ps|
    decreases |ps|
  {
    if ps != [] {
      var init := ps[..|ps| - 1];
      FromPairsSize(init);
      if forall i, j :: 0 <= i < j < |ps| ==> ps[i].0 != ps[j].0 {
        FromPairsKeys(init);
        var last := ps[|ps| - 1].0;
        assert forall i :: 0 <= i < |init| ==> init[i].0 != last;
        assert forall i, j :: 0 <= i < j < |init| ==> init[i].0 != init[j].0 by {
          forall i, j | 0 <= i < j < |init| ensures init[i].0 != init[j].0 {
            assert init[i] == ps[i] && init[j] == ps[j];
          }
        }
      }
    }
  }

  /** Keys and values of the map come from the pairs, so they miss every
      character that all the pairs miss. */
  lemma {:induction false} FromPairsKeepsAbsent(ps: seq<(string, string)>, c: char)
    requires forall i :: 0 <= i < |ps| ==> c !in ps[i].0 && c !in ps[i].1
    ensures forall k :: k in FromPairs(ps) ==> c !in k && c !in FromPairs(ps)[k]
    decreases |ps|
  {
    if ps != [] {
      var init := ps[..|ps| - 1];
      assert forall i :: 0 <= i < |init| ==> init[i] == ps[i];
      FromPairsKeepsAbsent(init, c);
    }
  }

  /** A map built from lines that lack a character has keys and values that lack it. */
  lemma {:induction false} MappingKeepsAbsent(lines: seq<string>, config: Config, c: char)
    requires config.delimiter != Some([])
    requires forall i :: 0 <= i < |lines| ==> c !in lines[i]
    requires Mapping(lines, config).Ok?
    ensures forall k :: k in Mapping(lines, config).value ==>
      c !in k && c !in Mapping(lines, config).value[k]
  {
    var delim, url := config.delimiter.value, config.url.value;
    var ps := ParseAll(lines, delim, url).value;
    ParseAllPairs(lines, delim, url);
    forall i | 0 <= i < |ps| ensures c !in ps[i].0 && c !in ps[i].1 {
      ParseLineKeepsAbsent(lines[i], delim, url, c);
    }
    FromPairsKeepsAbsent(ps, c);
  }

  // ------------------------------------------------- in terms of the lines

  /** `line` yields a pair whose key is `key`. */
  ghost predicate HasKey(line: string, delim: string, url: string, key: string)
    requires delim != []
  {
    ParseLine(line, delim, url).Some? && ParseLine(line, delim, url).value.0 == key
  }

  /** A successful map has one key per distinct processed first field: its key
      set is the set of those fields, so it has at most one entry per line and
      exactly one per line when the keys of the lines are distinct. */
  lemma {:induction false} MappingEntries(lines: seq<string>, delim: string, url: string)
    requires delim != []
    requires Mapping(lines, Config(Some(delim), Some(url))).Ok?
    ensures forall i :: 0 <= i < |lines| ==> ParseLine(lines[i], delim, url).Some?
    ensures Mapping(lines, Config(Some(delim), Some(url))).value.Keys ==
      set i | 0 <= i < |lines| :: ParseLine(lines[i], delim, url).value.0
    ensures |Mapping(lines, Config(Some(delim), Some(url))).value| <= |lines|
    ensures (forall i, j :: 0 <= i < j < |lines| ==>
               ParseLine(lines[i], delim, url).value.0 != ParseLine(lines[j], delim, url).value.0) ==>
            |Mapping(lines, Config(Some(delim), Some(url))).value| == |lines|
  {
    var ps := ParseAll(lines, delim, url).value;
    assert Mapping(lines, Config(Some(delim), Some(url))).value == FromPairs(ps);
    ParseAllPairs(lines, delim, url);
    LineKeys(lines, delim, url, ps);
    FromPairsKeys(ps);
    FromPairsSize(ps);
  }

  /** The keys of the lines are the keys of their pairs. */
  lemma {:induction false} LineKeys(lines: seq<string>, delim: string, url: string, ps: seq<(string, string)>)
    requires delim != [] && |ps| == |lines|
    requires forall i :: 0 <= i < |lines| ==> ParseLine(lines[i], delim, url) == Some(ps[i])
    ensures (set i | 0 <= i < |lines| :: ParseLine(lines[i], delim, url).value.0) == set i | 0 <= i < |ps| :: ps[i].0
    ensures (forall i, j :: 0 <= i < j < |lines| ==>
               ParseLine(lines[i], delim, url).value.0 != ParseLine(lines[j], delim, url).value.0) ==>
            forall i, j :: 0 <= i < j < |ps| ==> ps[i].0 != ps[j].0
  {
  }

  /** Last write wins, line by line: the value stored for a key is the processed
      second field of the last line whose key it is. */
  lemma {:induction false} MappingLastWriteWins(lines: seq<string>, delim: string, url: string, i: nat, key: string, value: string)
    requires delim != []
    requires Mapping(lines, Config(Some(delim), Some(url))).Ok?
    requires i < |lines| && ParseLine(lines[i], delim, url) == Some((key, value))
    requires forall j :: i < j < |lines| ==> !HasKey(lines[j], delim, url, key)
    ensures key in Mapping(lines, Config(Some(delim), Some(url))).value
    ensures Mapping(lines, Config(Some(delim), Some(url))).value[key] == value
  {
    var ps := ParseAll(lines, delim, url).value;
    ParseAllPairs(lines, delim, url);
    forall j | i < j < |ps| ensures ps[j].0 != ps[i].0 {
      assert !HasKey(lines[j], delim, url, key);
    }
    LastWriteWins(ps, i);
  }
}
