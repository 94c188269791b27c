// Concrete lines and what read() makes of them.

module TomlSamples {
  import opened JavaString
  import opened LineSource
  import opened Toml

  /** `a = "v1"` with no table set: the pair (a, v1). */
  lemma SpacedPair()
    ensures ReadFrom(["a = \"v1\""], Kinds(["a = \"v1\""]), AlwaysReady, 0, None)
      == Step(Returned(Pair("a", "v1")), 1, None)
  {
    var line := "a = \"v1\"";
    assert Trim(line) == line;
    assert IndexOf(line, '=') == 2;
    assert TrimStart(line, 3, 8) == 4 && TrimEnd(line, 4, 8) == 8;
    assert TrimFrom(line, 3) == "\"v1\"";
    assert Classify(line) == Quoted('"', 2, line, "\"v1\"");
    assert LastIndexOf("\"v1\"", '"') == 3;
    assert Kinds([line])[0] == Classify(line);
  }

  /** `a="x"`: the character before '=' is dropped, so the key is empty. */
  lemma TightPairDropsKey()
    ensures ReadFrom(["a=\"x\""], Kinds(["a=\"x\""]), AlwaysReady, 0, None)
      == Step(Returned(Pair("", "x")), 1, None)
  {
    var line := "a=\"x\"";
    assert Trim(line) == line;
    assert IndexOf(line, '=') == 1;
    assert TrimFrom(line, 2) == "\"x\"";
    assert Classify(line) == Quoted('"', 1, line, "\"x\"");
    assert LastIndexOf("\"x\"", '"') == 2;
    assert Kinds([line])[0] == Classify(line);
  }

  /**
   * A header, an empty line, a literal-string pair and a comment: forEach()
   * hands on the pair under the table, then the comment ends the parse and
   * clears the table.
   */
  lemma HeaderThenPairThenComment()
    ensures var lines := ["[t]", "", "b = 'v2'", "# c"];
      Visit(lines, Kinds(lines), AlwaysReady, 0, None) == Walk([Pair("t.b", "v2")], None, 4, None)
  {
    var lines := ["[t]", "", "b = 'v2'", "# c"];
    var kinds := Kinds(lines);
    assert Trim(lines[0]) == "[t]";
    assert IndexOf("[t]", ']') == 2;
    assert kinds[0] == Classify(lines[0]) == Header("t");
    var pair := "b = 'v2'";
    assert Trim(pair) == pair;
    assert IndexOf(pair, '=') == 2;
    assert TrimStart(pair, 3, 8) == 4 && TrimEnd(pair, 4, 8) == 8;
    assert TrimFrom(pair, 3) == "'v2'";
    assert kinds[2] == Classify(pair) == Quoted('\'', 2, pair, "'v2'");
    assert LastIndexOf("'v2'", '\'') == 3;
    assert Trim(lines[3]) == "# c";
    assert IndexOf("# c", '=') == -1;
    assert TrimFrom("# c", 0) == "# c";
    assert kinds[3] == Classify(lines[3]) == Unrecognized;
    assert SkipEmpty(lines, 1) == 2;
    assert ReadFrom(lines, kinds, AlwaysReady, 0, None) == Step(Returned(Pair("t.b", "v2")), 3, Some("t"));
    assert ReadFrom(lines, kinds, AlwaysReady, 3, Some("t")) == Step(Returned(End), 4, None);
  }

  /** The same text through the parser object: forEach() hands on just the one pair. */
  method ParseHeaderThenPair() returns (visited: seq<TomlEntry>, failure: Option<Fault>)
    ensures visited == [Pair("t.b", "v2")] && failure == None
  {
    var parser := new TomlParser(["[t]", "", "b = 'v2'", "# c"], AlwaysReady);
    visited, failure := parser.ForEach();
    HeaderThenPairThenComment();
  }
}
