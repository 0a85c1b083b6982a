# Redirect-rule converter, modelled in Dafny

`re` ("r(edirection) e(ngine)") turns a text file of delimited pairs into an
`<httpRedirect>` rule document for a web server's URL-rewriting module. It
cuts the input into lines. It splits each line on a configurable delimiter and
removes a configurable base url from the first two fields. It inserts the pairs
into a map, where the last write wins. Then it writes one `<add wildcard="…"
destination="…" />` line per map entry between a fixed opening line and a
fixed closing line.

The Dafny project models that transform, following `src/main.rs`:

- `wrappers.dfy` (`Wrappers`): `Option` and `Result`.
- `text.dfy` (`Text`): the parts of Rust's string library the program relies
  on. These are leftmost substring search (`Find`), `str::split` with a
  non-empty pattern (`Split`), `str::replace(url, "")` (`RemoveAll`) and
  `str::lines` (`Lines`). `Unlines` stands for a run of `writeln!` calls. The
  module also proves their round trips.
- `settings.dfy` (`Settings`): `Config`, made of two optional strings,
  `Config::default`, and the choice `main` makes between the file's
  configuration and the default one.
- `redirects.dfy` (`Redirects`): `create_map`. `CreateMap` is the loop that
  inserts into a map, proved equal to the specification `Mapping`.
  `Mapping` first takes each line to a pair (`ParseLine`, `ParseAll`) and then
  inserts the pairs in order (`FromPairs`). The panics become error values:
  `MissingDelimiter` and `MissingUrl` for the `unwrap()` calls on absent
  fields, and `MalformedLine(i)` when line `i` has no second field.
- `document.dfy` (`Document`): the text `write_file` produces. `WriteDocument`
  loops over the map's keys in an arbitrary order, as a `HashMap` yields them,
  and is proved equal to `Render` for the order it used.
- `convert.dfy` (`Convert`): the `main` pipeline (`Run`) and worked scenarios.

Two behaviours of `src/main.rs` are worth stating plainly, since the help
text of `--config`, "Specify config file to overwrite defaults"
(src/main.rs:84), might suggest otherwise:

- The code does no field-level defaulting. A configuration file that omits a
  field gives `None`, and `create_map` then panics; the model returns an error.
- The code does not skip empty lines. An empty line splits into a single
  field, so `pair[1]` is out of bounds; the model returns `MalformedLine`.

## Model

| member | source | states |
|---|---|---|
| Settings.Default | src/main.rs:17-24 | no contract of its own; `Settings.Resolve` states its two fields, `","` and `"https://example.org"` |
| Settings.Resolve | src/main.rs:100-109 | with no config file, the configuration is exactly delimiter `","` and url `"https://example.org"` (`Config::default`, lines 17-24); with a file, the file's configuration is used whole |
| Settings.NoFieldDefaulting | src/main.rs:100-107 | a field missing from the configuration file stays absent; nothing falls back to the default |
| Text.Find | src/main.rs:32-33 | the result is the leftmost occurrence of the pattern at or after the start index, or none when there is no occurrence there |
| Text.Split | src/main.rs:32 | a split always has at least one field, and has exactly one field iff the search for the delimiter from the start finds nothing |
| Text.NoMatchFind | src/main.rs:32 | the search from the start finds nothing iff the delimiter occurs nowhere in the line |
| Text.SplitSingle | src/main.rs:32 | a split has exactly one field iff the delimiter does not occur in the line |
| Text.SplitFound | src/main.rs:32 | when the delimiter first occurs at `i`, the fields are the text before `i` followed by the fields of the text after that occurrence |
| Text.JoinSplit | src/main.rs:32 | joining the fields of a split with the delimiter gives back the line |
| Text.SplitJoin | src/main.rs:32 | fields joined with the delimiter and split again come back unchanged, provided that after each field the first occurrence of the delimiter is the one the join puts there (occurrences straddling a field boundary are excluded) |
| Text.SplitJoinSingle | src/main.rs:32 | for a one-character delimiter, fields that lack the character come back unchanged from joining and splitting |
| Text.FieldAlone | src/main.rs:32 | a field that ends where the first occurrence of the delimiter after it begins contains no occurrence, so it splits into itself |
| Text.SplitAtFirst | src/main.rs:32 | for any non-empty delimiter: when its first occurrence in `a + delimiter` is the appended one, the first field of `a + delimiter + b` is `a` and splitting continues with `b` |
| Text.SplitTwo | src/main.rs:32 | two such fields around one delimiter split into exactly those two fields |
| Text.SplitThree | src/main.rs:32 | with a second delimiter and any text after it, the first two fields are still those two |
| Text.RemoveAll | src/main.rs:33 | removing the url never makes a field longer |
| Text.RemoveAllIsConcatOfSplit | src/main.rs:33 | removal yields the pieces between the leftmost non-overlapping occurrences, concatenated, which is one left-to-right pass |
| Text.RemoveAllUnchanged | src/main.rs:33 | a field is left unchanged iff the url does not occur in it (or the url is empty) |
| Text.RemoveAllLeading | src/main.rs:33 | an occurrence of the url at the start of a field is removed |
| Text.RemoveAllShort | src/main.rs:33 | a field shorter than the url is unchanged |
| Text.RemoveAllSinglePass | src/main.rs:33 | removal is not repeated: removing `ab` from `aabb` gives `ab`, which still contains `ab` |
| Text.RemoveAllKeepsAbsent | src/main.rs:33 | removal brings in no character the field lacked |
| Text.SplitKeepsAbsent | src/main.rs:32 | no field of a split contains a character the line lacks |
| Text.Lines | src/main.rs:39-41 | no contract of its own; described by `Text.LinesHaveNoNewline`, `Text.LinesCons`, `Text.LinesSingle`, `Text.LinesTrailingNewline`, `Text.LinesOfUnlines` and `Text.UnlinesOfLines` |
| Text.LinesHaveNoNewline | src/main.rs:39-41 | no line contains a newline |
| Text.LinesTrailingNewline | src/main.rs:39-41 | a final newline adds no extra empty line |
| Text.LinesCons | src/main.rs:40 | the first line runs up to the first newline, without a trailing carriage return |
| Text.LinesSingle | src/main.rs:40 | non-empty text without a newline is one line, with one trailing carriage return dropped (empty text has no lines, `Convert.EmptyInput`) |
| Text.LinesOfUnlines | src/main.rs:40 | lines without newlines that do not end in a carriage return come back unchanged after being written out one per line and split again |
| Text.UnlinesOfLines | src/main.rs:40 | text without carriage returns that is empty or ends in a newline is rebuilt exactly from its lines |
| Redirects.ParseLine | src/main.rs:32-33 | a line yields no pair (the out-of-bounds `pair[1]`) iff it contains no occurrence of the delimiter |
| Redirects.ParseAll | src/main.rs:31-34 | on success there is one pair per line; a failure names a line index inside the input |
| Redirects.Mapping | src/main.rs:26-37 | no contract of its own; the specification `Redirects.CreateMap` is proved equal to, described by `Redirects.MappingEntries`, `Redirects.MappingLastWriteWins` and `Redirects.MappingKeepsAbsent` |
| Redirects.FromPairs | src/main.rs:29-34 | no contract of its own; the insertion loop as a function, described by `Redirects.FromPairsKeys`, `Redirects.LastWriteWins` and `Redirects.FromPairsSize` |
| Redirects.CreateMap | src/main.rs:26-37 | the loop's result equals `Mapping`: absent delimiter, then absent url, then the first malformed line are errors; otherwise it is the map the pairs build |
| Redirects.ParseAllErrorExtends | src/main.rs:31-34 | once a line fails, the whole input fails with that line's error, so no map is produced |
| Redirects.ParseAllPairs | src/main.rs:31-34 | each line contributes exactly one pair, in order, and the pair is that line's parse |
| Redirects.ParseAllError | src/main.rs:32-33 | parsing succeeds iff every line contains the delimiter; it fails with `MalformedLine(k)` iff line `k` is the first line without it |
| Redirects.FromPairsKeys | src/main.rs:29-34 | the key set of the map is the set of keys of the inserted pairs |
| Redirects.FromPairsSnoc | src/main.rs:33 | inserting one more pair updates the map at its key and leaves the rest of the map as it was |
| Redirects.LastWriteWins | src/main.rs:33 | a key maps to the value of the last pair inserted with that key |
| Redirects.FromPairsSize | src/main.rs:29-34 | there are at most as many entries as insertions, and exactly as many when the keys are distinct |
| Redirects.MappingEntries | src/main.rs:26-37 | for a successful run, every line parses and the key set equals the set of processed first fields of the lines; the entry count is at most the line count, with equality when those keys are distinct |
| Redirects.MappingLastWriteWins | src/main.rs:31-34 | the value stored for a key is the processed second field of the last line with that key |
| Redirects.ExtraFieldsIgnored | src/main.rs:32-33 | for any non-empty delimiter that first occurs right after the key and right after the value, only fields 0 and 1 are used, each with the url removed; anything after a second delimiter is ignored |
| Redirects.ExtraFieldsIgnoredSingle | src/main.rs:32-33 | the same for a one-character delimiter that the key and the value lack |
| Redirects.PrefixedPair | src/main.rs:33 | when both fields start with the url and are otherwise shorter than it, the url is removed from both and the rest is kept |
| Redirects.ExtraFieldsExample | src/main.rs:32-33 | under the default configuration `"a,b,c"` gives the pair `a -> b` |
| Redirects.DefaultUrlExample | src/main.rs:33 | under the default configuration `"https://example.org/a,https://example.org/b"` gives key `"/a"` and value `"/b"` |
| Redirects.LineWithoutDelimiter | src/main.rs:32-33 | a line without the delimiter, the empty line among them, gives no pair |
| Redirects.ParseLineKeepsAbsent | src/main.rs:32-33 | a key or value contains no character that its line lacks |
| Redirects.MappingKeepsAbsent | src/main.rs:26-37 | a map built from lines that all lack a character has keys and values that lack it |
| Redirects.ParseAllTwo | src/main.rs:31-34 | for two lines where the first parses, the result is the two pairs, or `MalformedLine(1)` when the second line does not parse |
| Redirects.ParseAllOne | src/main.rs:31-34 | a single line that parses gives exactly its one pair |
| Redirects.ParseStep | src/main.rs:31-34 | one iteration of the loop: a line with fewer than two fields makes the prefix fail with `MalformedLine` at its index, otherwise it appends the line's processed pair |
| Document.Header | src/main.rs:68 | no contract of its own; the opening line `<httpRedirect enabled="true" exactDestination="true" httpResponseStatus="Permanent">`; `Document.FixedLinesPlain` states that it is one plain line |
| Document.Footer | src/main.rs:72 | no contract of its own; the closing line `</httpRedirect>`; `Document.FixedLinesPlain` states that it is one plain line |
| Document.AddElement | src/main.rs:70 | no contract of its own; the entry line `\t<add wildcard="K" destination="V" />`; `Document.AddElementPlain` and `Document.DocumentLines` describe it |
| Document.Render | src/main.rs:68-72 | no contract of its own; `Document.WriteDocument` is proved equal to it, and `Document.RenderShape`, `Document.DocumentLines` and `Document.EmptyDocument` describe it |
| Document.Elements | src/main.rs:69-71 | entry line `i` is the `<add …/>` line for the `i`-th visited key and its value |
| Document.WriteDocument | src/main.rs:68-72 | the text written is `Render` of the map for an order that visits every key exactly once |
| Document.RenderShape | src/main.rs:68-72 | the document is the opening line, the entry lines and the closing line, each ending in a newline |
| Document.FixedLinesPlain | src/main.rs:68 | the opening and closing lines contain no newline and do not end in a carriage return |
| Document.AddElementPlain | src/main.rs:70 | an entry line contains a newline only if its key or value does |
| Document.IterationOrderLength | src/main.rs:69-71 | an iteration order has one key per map entry, so there is exactly one entry line per entry |
| Document.EmptyDocument | src/main.rs:68-72 | the document for an empty map is just the opening and the closing line |
| Document.DocumentLines | src/main.rs:68-72 | split back into lines, the document is the header, one `<add wildcard="K" destination="V" />` line per entry with K and V verbatim, and the footer |
| Convert.Run | src/main.rs:100-117 | the run fails exactly when `create_map` would, with the same error; otherwise the document is the rendering of that map in some iteration order and consists of exactly `|m| + 2` lines |
| Convert.EmptyInput | src/main.rs:111-117 | empty input gives no lines, an empty map, and only the opening and closing lines |
| Convert.MissingField | src/main.rs:27-28 | an absent delimiter or url is an error even before any line is looked at, and the delimiter is checked first |
| Convert.TwoRecordsLines | src/main.rs:40 | `"/foo,/bar\n/baz,/qux"` is the two lines `"/foo,/bar"` and `"/baz,/qux"` |
| Convert.TwoRecordsPairs | src/main.rs:32-33 | those two lines give the pairs `/foo -> /bar` and `/baz -> /qux` |
| Convert.MappingOne | src/main.rs:26-37 | one line that parses gives the map holding just its pair |
| Convert.MappingTwo | src/main.rs:26-37 | two lines that parse give the map of both pairs, with the second written last |
| Convert.TwoRecords | src/main.rs:26-41 | under the default configuration that input becomes the map `{/foo: /bar, /baz: /qux}` |
| Convert.TwoRecordsDocument | src/main.rs:68-72 | the document for that map has its two `<add …/>` lines, in one of the two orders, between the opening and the closing line |
| Convert.TwoKeyOrders | src/main.rs:69 | a map with two distinct keys has exactly two iteration orders |
| Convert.MalformedRecord | src/main.rs:32-33 | a line with a single field is an error on line 0 |
| Convert.MalformedSecondLines | src/main.rs:40 | `"/a,/b\n/c\n"` is the two lines `"/a,/b"` and `"/c"` |
| Convert.MalformedSecondPairs | src/main.rs:32-33 | `"/a,/b"` gives the pair `/a -> /b`, and `"/c"` gives no pair |
| Convert.MalformedSecondRecord | src/main.rs:31-34 | so that input fails on line 1, and no map is produced |
| Convert.CustomConfiguration | src/main.rs:26-34 | with delimiter `";"` and url `"http://internal/"`, the line `"http://internal/a;http://internal/b"` gives the map `{a: b}` |

## Left out

- Command-line parsing with `clap` (src/main.rs:76-98), including the default output name `httpRedirects.config`: this is library wiring with no logic of its own. `Run` takes the already parsed configuration as a value.
- TOML deserialisation and the config-file read in `read_config` (src/main.rs:43-55): these are foreign-library calls and I/O. The parsed configuration is a parameter, `fromFile`. The panics on an unreadable or unparsable file are not modelled, and neither is `main`'s `Err(_) => return` branch, which `read_config` never reaches.
- `read_file` (src/main.rs:57-62), and `File::create` and `BufWriter` in `write_file` (src/main.rs:65-66): this is I/O. The input text is a parameter and the document is returned as a string. Failures to open or create a file are not modelled.
- The panics of `create_map` are error results (`MissingDelimiter`, `MissingUrl`, `MalformedLine`), not process termination.
- Document.WriteDocument: `HashMap`'s real iteration order is not modelled. The order is an arbitrary choice, returned beside the text; the contract only requires that it visit every key once.
- Redirects.CreateMap: requires a non-empty delimiter, because Rust's splitting on an empty pattern (a match between every pair of characters) is not modelled.
- Redirects.Mapping: requires a non-empty delimiter, for the same reason.
- Convert.Run: requires a non-empty delimiter, for the same reason.
- Text.Lines: strips one trailing carriage return from every line, the final line included. That is `str::lines` in the Rust of the program's time. Newer Rust keeps a lone `\r` at the very end of the text; that variant is not modelled.
- Characters are Unicode scalar values; UTF-8 byte encoding is not modelled, since every operation here works on whole characters.
- XML escaping: none is done, as in the source. Keys and values are copied verbatim into the attribute values.
