/**
 The pipeline of `main`: resolve the configuration, cut the input text into
 lines, build the map and render the document. Reading the input file and
 writing the output file are left to the caller: the input arrives as a
 string and the document is returned as one.
 */
module Convert {
  import opened Wrappers
  import opened Text
  import opened Settings
  import opened Redirects
  import opened Document

  /** One run of the converter. `fromFile` is the parsed `--config` file, or
      None when the flag is absent. On success the document is the rendering of
      the map `create_map` computes, in some iteration order of that map. */
  method Run(fromFile: Option<Config>, input: string)
    returns (r: Result<string, Error>, m: map<string, string>, order: seq<string>)
    requires Resolve(fromFile).delimiter != Some([])
    ensures r.Err? ==> Mapping(Lines(input), Resolve(fromFile)) == Err(r.error)
    ensures r.Ok? ==> Mapping(Lines(input), Resolve(fromFile)) == Ok(m)
    ensures r.Ok? ==> IsIterationOrder(order, m) && r.value == Render(m, order)
    ensures r.Ok? ==> Lines(r.value) == [Header] + Elements(m, order) + [Footer]
    ensures r.Ok? ==> |Lines(r.value)| == |m| + 2
  {
    var config := Resolve(fromFile);
    var pairs := Lines(input);
    var created := CreateMap(pairs, config);
    if created.Err? {
      return Err(created.error), map[], [];
    }
    m := created.value;
    var doc;
    doc, order := WriteDocument(m);
    LinesHaveNoNewline(input);
    MappingKeepsAbsent(pairs, config, '\n');
    DocumentLines(m, order);
    IterationOrderLength(order, m);
    r := Ok(doc);
  }

  // ------------------------------------------------- scenario building blocks

  /** Two plain lines separated by a newline. */
  lemma {:induction false} TwoLines(first: string, second: string)
    requires '\n' !in first && StripCR(first) == first
    requires second != [] && '\n' !in second && StripCR(second) == second
    ensures Lines(first + "\n" + second) == [first, second]
  {
    LinesCons(first, second);
    LinesSingle(second);
  }

  /** A line of two short fields under a one-character delimiter keeps both. */
  lemma {:induction false} ShortPair(key: string, value: string, c: char, url: string)
    requires c !in key && c !in value && |key| < |url| && |value| < |url|
    ensures ParseLine(key + [c] + value, [c], url) == Some((key, value))
  {
    ExtraFieldsIgnoredSingle(key, value, [], c, url);
    RemoveAllShort(key, url);
    RemoveAllShort(value, url);
  }

  /** One line that parses gives a one-entry map. */
  lemma {:induction false} MappingOne(line: string, delim: string, url: string, key: string, value: string)
    requires delim != [] && ParseLine(line, delim, url) == Some((key, value))
    ensures Mapping([line], Config(Some(delim), Some(url))) == Ok(map[key := value])
  {
    ParseAllSnoc([], line, delim, url);
    assert [] + [line] == [line];
    var ps := [(key, value)];
    assert [] + ps == ps;
    assert ParseAll([line], delim, url) == Ok(ps);
    assert ps[..0] == [];
    assert FromPairs(ps) == map[key := value];
  }

  /** Two lines that parse give the map of their two pairs, the second written last. */
  lemma {:induction false} MappingTwo(first: string, second: string, delim: string, url: string, p: (string, string), q: (string, string))
    requires delim != []
    requires ParseLine(first, delim, url) == Some(p) && ParseLine(second, delim, url) == Some(q)
    ensures Mapping([first, second], Config(Some(delim), Some(url))) == Ok(map[p.0 := p.1][q.0 := q.1])
  {
    ParseAllTwo(first, second, delim, url);
    var ps := [p, q];
    assert ParseAll([first, second], delim, url) == Ok(ps);
    assert ps[..1] == [p] && [p][..0] == [];
    assert FromPairs([p]) == map[p.0 := p.1];
    assert FromPairs(ps) == FromPairs([p])[q.0 := q.1];
  }

  // ------------------------------------------------------------- scenarios

  /** Empty input: no lines, an empty map, and a document of the opening and
      closing lines only. */
  lemma {:induction false} EmptyInput(config: Config, order: seq<string>)
    requires config.delimiter.Some? && config.delimiter.value != [] && config.url.Some?
    requires IsIterationOrder(order, map[])
    ensures Lines("") == []
    ensures Mapping(Lines(""), config) == Ok(map[])
    ensures Render(map[], order) == Header + "\n" + Footer + "\n"
  {
    EmptyDocument(order);
  }

  /** A configuration field that is absent is an error before any line is read. */
  lemma {:induction false} MissingField(lines: seq<string>, delimiter: string, url: string)
    requires delimiter != []
    ensures Mapping(lines, Config(None, Some(url))) == Err(MissingDelimiter)
    ensures Mapping(lines, Config(None, None)) == Err(MissingDelimiter)
    ensures Mapping(lines, Config(Some(delimiter), None)) == Err(MissingUrl)
  {
  }

  lemma {:induction false} TwoRecordsLines()
    ensures Lines("/foo,/bar\n/baz,/qux") == ["/foo,/bar", "/baz,/qux"]
  {
    var first, second := "/foo,/bar", "/baz,/qux";
    assert "/foo,/bar\n/baz,/qux" == first + "\n" + second;
    TwoLines(first, second);
  }

  lemma {:induction false} TwoRecordsPairs()
    ensures ParseLine("/foo,/bar", ",", DefaultUrl) == Some(("/foo", "/bar"))
    ensures ParseLine("/baz,/qux", ",", DefaultUrl) == Some(("/baz", "/qux"))
  {
    assert "/foo,/bar" == "/foo" + [','] + "/bar";
    ShortPair("/foo", "/bar", ',', DefaultUrl);
    assert "/baz,/qux" == "/baz" + [','] + "/qux";
    ShortPair("/baz", "/qux", ',', DefaultUrl);
  }

  /** Two records under the default configuration become two entries. */
  lemma {:induction false} TwoRecords()
    ensures Mapping(Lines("/foo,/bar\n/baz,/qux"), Resolve(None)) == Ok(map["/foo" := "/bar", "/baz" := "/qux"])
  {
    TwoRecordsLines();
    TwoRecordsPairs();
    MappingTwo("/foo,/bar", "/baz,/qux", ",", DefaultUrl, ("/foo", "/bar"), ("/baz", "/qux"));
    assert Resolve(None) == Config(Some(","), Some(DefaultUrl));
  }

  /** The document for those two entries holds their two `<add …/>` lines, in
      one of the two orders, between the opening and the closing line. */
  lemma {:induction false} TwoRecordsDocument(order: seq<string>)
    requires IsIterationOrder(order, map["/foo" := "/bar", "/baz" := "/qux"])
    ensures order == ["/foo", "/baz"] || order == ["/baz", "/foo"]
    ensures Lines(Render(map["/foo" := "/bar", "/baz" := "/qux"], order)) ==
      [Header, AddElement(order[0], (map["/foo" := "/bar", "/baz" := "/qux"])[order[0]]),
       AddElement(order[1], (map["/foo" := "/bar", "/baz" := "/qux"])[order[1]]), Footer]
  {
    var m := map["/foo" := "/bar", "/baz" := "/qux"];
    TwoKeyOrders(order, m, "/foo", "/baz");
    DocumentLines(m, order);
  }

  /** A map with two keys has exactly two iteration orders. */
  lemma {:induction false} TwoKeyOrders(order: seq<string>, m: map<string, string>, a: string, b: string)
    requires IsIterationOrder(order, m) && m.Keys == {a, b} && a != b
    ensures order == [a, b] || order == [b, a]
  {
    IterationOrderLength(order, m);
    assert order[0] in m && order[1] in m && order[0] != order[1];
  }

  /** A line without the delimiter aborts the run with an error naming it. */
  lemma {:induction false} MalformedRecord()
    ensures Mapping(Lines("/foo"), Resolve(None)) == Err(MalformedLine(0))
  {
    LinesSingle("/foo");
    LineWithoutDelimiter("/foo", ',', DefaultUrl);
    assert ["/foo"][..0] == [];
  }

  lemma {:induction false} MalformedSecondLines()
    ensures Lines("/a,/b\n/c\n") == ["/a,/b", "/c"]
  {
    var first, second := "/a,/b", "/c";
    assert "/a,/b\n/c\n" == first + "\n" + (second + "\n" + []);
    LinesCons(first, second + "\n" + []);
    LinesCons(second, []);
  }

  lemma {:induction false} MalformedSecondPairs()
    ensures ParseLine("/a,/b", ",", DefaultUrl) == Some(("/a", "/b"))
    ensures ParseLine("/c", ",", DefaultUrl).None?
  {
    assert "/a,/b" == "/a" + [','] + "/b";
    ShortPair("/a", "/b", ',', DefaultUrl);
    LineWithoutDelimiter("/c", ',', DefaultUrl);
  }

  /** The error names the first bad line even after good ones. */
  lemma {:induction false} MalformedSecondRecord()
    ensures Mapping(Lines("/a,/b\n/c\n"), Resolve(None)) == Err(MalformedLine(1))
  {
    MalformedSecondLines();
    MalformedSecondPairs();
    ParseAllTwo("/a,/b", "/c", ",", DefaultUrl);
    assert Resolve(None) == Config(Some(","), Some(DefaultUrl));
  }

  /** A custom delimiter and url are applied to both fields. */
  lemma {:induction false} CustomConfiguration()
    ensures Mapping(Lines("http://internal/a;http://internal/b"), Config(Some(";"), Some("http://internal/")))
         == Ok(map["a" := "b"])
  {
    var url := "http://internal/";
    var line := url + "a" + [';'] + (url + "b");
    CustomLine();
    LinesSingle(line);
    PrefixedPair("a", "b", ';', url);
    MappingOne(line, ";", url, "a", "b");
  }

  lemma {:induction false} CustomLine()
    ensures "http://internal/a;http://internal/b" == "http://internal/" + "a" + [';'] + ("http://internal/" + "b")
  {
  }
}
