/**
 The text `write_file` writes: an opening `<httpRedirect …>` line, one
 `<add …/>` line per map entry in the map's iteration order, and a closing
 line. Keys and values are copied verbatim, with no XML escaping.
 */
module Document {
  import opened Text

  const Header: string :=
    "<httpRedirect " + "enabled=\"true\" " + "exactDestination=\"true\" " + "httpResponseStatus=\"Permanent\">"
  const Footer: string := "</httpRedirect>"

  /** The line written for one entry, without its newline. */
  function AddElement(key: string, value: string): string {
    "\t<add wildcard=\"" + key + "\" destination=\"" + value + "\" />"
  }

  /** `order` visits every key of `m` exactly once: an iteration order of the map. */
  predicate IsIterationOrder(order: seq<string>, m: map<string, string>) {
    && (forall k :: k in order ==> k in m)
    && (forall k :: k in m ==> k in order)
    && (forall i, j :: 0 <= i < j < |order| ==> order[i] != order[j])
  }

  /** The entry lines for the keys in `order`. */
  function Elements(m: map<string, string>, order: seq<string>): (r: seq<string>)
    requires forall k :: k in order ==> k in m
    ensures |r| == |order|
    ensures forall i :: 0 <= i < |order| ==> r[i] == AddElement(order[i], m[order[i]])
    decreases |order|
  {
    if order == [] then []
    else Elements(m, order[..|order| - 1]) + [AddElement(order[|order| - 1], m[order[|order| - 1]])]
  }

  /** The document for `m` when its entries are visited in `order`: every line
      written with `writeln!`, so each ends in a newline. */
  function Render(m: map<string, string>, order: seq<string>): string
    requires forall k :: k in order ==> k in m
  {
    Unlines([Header] + Elements(m, order) + [Footer])
  }

  /** `write_file` minus the file: the loop over the map's entries, writing one
      line each into the buffer. The order is whatever the map yields; it is
      returned alongside the text. */
  method WriteDocument(m: map<string, string>) returns (doc: string, order: seq<string>)
    ensures IsIterationOrder(order, m)
    ensures doc == Render(m, order)
  {
    var opening := Header + "\n";
    doc := opening;
    order := [];
    var rest := m.Keys;
    while rest != {}
      invariant rest <= m.Keys
      invariant forall k :: k in m ==> (k in order <==> k !in rest)
      invariant forall k :: k in order ==> k in m
      invariant forall i, j :: 0 <= i < j < |order| ==> order[i] != order[j]
      invariant doc == opening + Unlines(Elements(m, order))
      decreases rest
    {
      var key :| key in rest;
      var line := AddElement(key, m[key]) + "\n";
      WriteStepAfter(opening, m, order, key);
      doc := doc + line;
      order := order + [key];
      rest := rest - {key};
    }
    doc := doc + Footer + "\n";
    RenderShape(m, order);
  }

  /** Visiting one more key appends its entry line. */
  lemma {:induction false} WriteStep(m: map<string, string>, order: seq<string>, key: string)
    requires forall k :: k in order ==> k in m
    requires key in m
    ensures Unlines(Elements(m, order + [key])) == Unlines(Elements(m, order)) + (AddElement(key, m[key]) + "\n")
  {
    var line := AddElement(key, m[key]);
    assert (order + [key])[..|order|] == order;
    assert Elements(m, order + [key]) == Elements(m, order) + [line];
    UnlinesAppend(Elements(m, order), [line]);
    assert Unlines([line]) == line + "\n" by {
      assert [line][1..] == [];
    }
  }

  /** Regrouping an append. */
  lemma {:induction false} AppendAssoc(a: string, b: string, c: string)
    ensures a + b + c == a + (b + c)
  {
  }

  /** The same step after the text already written. */
  lemma {:induction false} WriteStepAfter(prefix: string, m: map<string, string>, order: seq<string>, key: string)
    requires forall k :: k in order ==> k in m
    requires key in m
    ensures prefix + Unlines(Elements(m, order)) + (AddElement(key, m[key]) + "\n")
         == prefix + Unlines(Elements(m, order + [key]))
  {
    WriteStep(m, order, key);
    AppendAssoc(prefix, Unlines(Elements(m, order)), AddElement(key, m[key]) + "\n");
  }

  // ---------------------------------------------------------------- lemmas

  /** The document is the opening line, the entry lines and the closing line,
      each followed by a newline. */
  lemma {:induction false} RenderShape(m: map<string, string>, order: seq<string>)
    requires forall k :: k in order ==> k in m
    ensures Render(m, order) == Header + "\n" + Unlines(Elements(m, order)) + Footer + "\n"
  {
    var elements := Elements(m, order);
    UnlinesAppend([Header] + elements, [Footer]);
    UnlinesAppend([Header], elements);
    assert Unlines([Header]) == Header + "\n" by {
      assert [Header][1..] == [];
    }
    assert Unlines([Footer]) == Footer + "\n" by {
      assert [Footer][1..] == [];
    }
  }

  /** Neither fixed line holds a newline or ends in a carriage return. */
  lemma {:induction false} FixedLinesPlain()
    ensures '\n' !in Header && StripCR(Header) == Header
    ensures '\n' !in Footer && StripCR(Footer) == Footer
  {
  }

  /** An entry line holds a newline only if its key or value does, and it does
      not end in a carriage return. */
  lemma {:induction false} AddElementPlain(key: string, value: string)
    requires '\n' !in key && '\n' !in value
    ensures '\n' !in AddElement(key, value) && StripCR(AddElement(key, value)) == AddElement(key, value)
  {
    var line := AddElement(key, value);
    assert line[|line| - 1] == '>';
  }

  lemma {:induction false} DistinctCount(order: seq<string>)
    requires forall i, j :: 0 <= i < j < |order| ==> order[i] != order[j]
    ensures |set k | k in order| == |order|
    decreases |order|
  {
    if order != [] {
      var init := order[..|order| - 1];
      var last := order[|order| - 1];
      DistinctCount(init);
      assert (set k | k in order) == (set k | k in init) + {last} by {
        forall k | k in order ensures k in init || k == last {
          var i :| 0 <= i < |order| && order[i] == k;
          if i < |init| { assert init[i] == k; }
        }
      }
      assert last !in init by {
        forall i | 0 <= i < |init| ensures init[i] != last {
          assert init[i] == order[i];
        }
      }
    }
  }

  /** An iteration order has exactly one key per entry, so the document has
      exactly one entry line per map entry. */
  lemma {:induction false} IterationOrderLength(order: seq<string>, m: map<string, string>)
    requires IsIterationOrder(order, m)
    ensures |order| == |m|
    ensures |Elements(m, order)| == |m|
  {
    DistinctCount(order);
    assert (set k | k in order) == m.Keys;
  }

  /** The document of an empty map is the opening and the closing line. */
  lemma {:induction false} EmptyDocument(order: seq<string>)
    requires IsIterationOrder(order, map[])
    ensures Render(map[], order) == Header + "\n" + Footer + "\n"
  {
    if order != [] {
      assert order[0] in order;
    }
    RenderShape(map[], order);
  }

  /** When keys and values hold no newline, splitting the document into lines
      gives the opening line, one `<add …/>` line per visited key, and the
      closing line. */
  lemma {:induction false} DocumentLines(m: map<string, string>, order: seq<string>)
    requires forall k :: k in order ==> k in m
    requires forall k :: k in m ==> '\n' !in k && '\n' !in m[k]
    ensures Lines(Render(m, order)) == [Header] + Elements(m, order) + [Footer]
  {
    var elements := Elements(m, order);
    var ls := [Header] + elements + [Footer];
    FixedLinesPlain();
    forall j | 0 <= j < |ls| ensures '\n' !in ls[j] && StripCR(ls[j]) == ls[j] {
      if j == 0 {
        assert ls[j] == Header;
      } else if j == |ls| - 1 {
        assert ls[j] == Footer;
      } else {
        var key := order[j - 1];
        assert ls[j] == elements[j - 1] == AddElement(key, m[key]);
        AddElementPlain(key, m[key]);
      }
    }
    LinesOfUnlines(ls);
  }
}
