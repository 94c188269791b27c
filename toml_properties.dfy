// What read() promises, stated over its functional model ReadFrom: how
// headers, pairs, blank lines and unrecognised lines move the cursor and the
// table field, and what a returned pair is made of.
//
// Most lemmas hold for any way `kinds` takes the lines; those about the
// text of a line ask that kinds take the lines as read() does (Classifies),
// which Kinds(lines), the parser's own choice, does.

module TomlProperties {
  import opened JavaString
  import opened Toml

  /**
   * The table after lines[i..j], if only the header lines among them ever
   * changed it; empty lines are passed over without being looked at.
   */
  function HeaderScan(lines: seq<string>, kinds: seq<LineKind>, i: nat, j: nat, table: Option<string>): Option<string>
    requires i <= j <= |lines| == |kinds|
    decreases j - i
  {
    if i == j then table
    else HeaderScan(lines, kinds, i + 1, j, if lines[i] != "" && kinds[i].Header? then Some(kinds[i].name) else table)
  }

  /**
   * A line is a header, good or bad, exactly when it starts with '[' once
   * trimmed. A header's name is what lies between its '[' and the first ']';
   * a bad header has no ']' at all.
   */
  lemma HeaderName(raw: string)
    ensures var k := Classify(raw); (k.Header? || k.BadHeader?) <==> StartsWith(Trim(raw), '[')
    ensures var t, k := Trim(raw), Classify(raw);
      k.BadHeader? ==> forall j :: 0 <= j < |t| ==> t[j] != ']'
    ensures var t, k := Trim(raw), Classify(raw);
      k.Header? ==>
        && |k.name| + 2 <= |t| && t[0] == '[' && t[1..|k.name| + 1] == k.name && t[|k.name| + 1] == ']'
        && forall j :: 0 <= j < |k.name| ==> k.name[j] != ']'
  {
    var t := Trim(raw);
    IndexOfIsFirst(t, ']');
    if Classify(raw).Header? {
      var name := Classify(raw).name;
      assert forall j :: 0 <= j < |name| ==> name[j] == t[j + 1];
    }
  }

  /**
   * A line is taken as a quoted pair exactly when, once trimmed, it is no
   * header, its first '=' is not at the front (a line without '=' counts as
   * having it at -1), and the trimmed text after that '=' opens with a
   * double or single quote, which becomes the quote.
   */
  lemma QuotedLine(raw: string)
    ensures var k := Classify(raw);
      k.Quoted? ==>
        && k.line == Trim(raw) && !StartsWith(k.line, '[')
        && k.index == IndexOf(k.line, '=') && k.index != 0
        && k.value == Trim(k.line[k.index + 1..]) && StartsWith(k.value, k.quote)
        && (k.quote == '"' || k.quote == '\'')
    ensures var t := Trim(raw);
      var i := IndexOf(t, '=');
      var rhs := Trim(t[i + 1..]);
      !StartsWith(t, '[') && i != 0 && (StartsWith(rhs, '"') || StartsWith(rhs, '\'')) ==>
        Classify(raw) == Quoted(rhs[0], i, t, rhs)
  {
    var t := Trim(raw);
    var i := IndexOf(t, '=');
    var rhs := TrimFrom(t, i + 1);
    TrimFromIsTrim(t, i + 1);
    if !StartsWith(t, '[') {
      PairLineQuoted(t, i, rhs);
    }
  }

  /** PairLine on a trimmed line that is no header, with its separator and right-hand side named. */
  lemma PairLineQuoted(t: string, i: int, rhs: string)
    requires i == IndexOf(t, '=') && rhs == TrimFrom(t, i + 1)
    ensures PairLine(t).Quoted? <==> i != 0 && (StartsWith(rhs, '"') || StartsWith(rhs, '\''))
    ensures PairLine(t).Quoted? ==> PairLine(t) == Quoted(rhs[0], i, t, rhs)
  {
  }

  /**
   * The pair a line denotes under a table: the line, trimmed, is no header;
   * its first '=' is not at the front; the name is the table's name and a
   * dot (nothing when there is no table) followed by the trimmed text before the character that precedes that '=' (that
   * character is always dropped); the trimmed right-hand side opens with a
   * double or single quote, and the value runs from there to the last
   * occurrence of that quote.
   */
  ghost predicate IsPairOf(raw: string, table: Option<string>, e: TomlEntry) {
    var line := Trim(raw);
    var index := IndexOf(line, '=');
    var rhs := TrimFrom(line, index + 1);
    && e.Pair?
    && !StartsWith(line, '[')
    && 1 <= index
    && (match table
        case None => e.name == TrimTo(line, index - 1)
        case Some(t) => e.name == t + "." + TrimTo(line, index - 1))
    && |e.value| + 2 <= |rhs| && (rhs[0] == '"' || rhs[0] == '\'')
    && rhs[1..|e.value| + 1] == e.value && rhs[|e.value| + 1] == rhs[0] && rhs[0] !in rhs[|e.value| + 2..]
  }

  /**
   * For a text that opens with `quote` and holds it again further on, what
   * lies between the first and the last occurrence is followed by the quote
   * and then by no other occurrence of it.
   */
  lemma BetweenQuotes(rhs: string, quote: char, v: string)
    requires StartsWith(rhs, quote) && 0 < LastIndexOf(rhs, quote) && v == rhs[1..LastIndexOf(rhs, quote)]
    ensures |v| + 2 <= |rhs| && rhs[1..|v| + 1] == v && rhs[|v| + 1] == rhs[0] && rhs[0] !in rhs[|v| + 2..]
  {
    LastIndexOfIsLast(rhs, quote);
  }

  /** What readString makes of a line with a quoted right-hand side, when it returns, is the pair that line denotes. */
  lemma ReadStringPair(raw: string, quote: char, index: int, line: string, rhs: string, table: Option<string>)
    requires line == Trim(raw) && !StartsWith(line, '[')
    requires index == IndexOf(line, '=') && index != 0
    requires rhs == TrimFrom(line, index + 1) && StartsWith(rhs, quote) && (quote == '"' || quote == '\'')
    ensures var r := ReadString(quote, index, line, rhs, table);
      r.Returned? ==> IsPairOf(raw, table, r.entry)
  {
    var r := ReadString(quote, index, line, rhs, table);
    if r.Returned? {
      assert IndexOf(rhs, quote) == 0;
      QuotedPairIsPairOf(raw, quote, index, line, rhs, table, r.entry);
    }
  }

  /** The pair a quoted line yields, built from its parts, is the pair that line denotes. */
  lemma QuotedPairIsPairOf(raw: string, quote: char, index: int, line: string, rhs: string, table: Option<string>, e: TomlEntry)
    requires line == Trim(raw) && !StartsWith(line, '[')
    requires index == IndexOf(line, '=') && 1 <= index
    requires rhs == TrimFrom(line, index + 1) && StartsWith(rhs, quote) && (quote == '"' || quote == '\'')
    requires 0 < LastIndexOf(rhs, quote)
    requires e == Pair(Prefix(table) + TrimTo(line, index - 1), rhs[1..LastIndexOf(rhs, quote)])
    ensures IsPairOf(raw, table, e)
  {
    BetweenQuotes(rhs, quote, e.value);
  }



  /** What readString makes of a quoted line, when it returns, is the pair that line denotes. */
  lemma QuotedLinePair(raw: string, table: Option<string>)
    requires Classify(raw).Quoted?
    ensures var c := Classify(raw);
      var r := ReadString(c.quote, c.index, c.line, c.value, table);
      r.Returned? ==> IsPairOf(raw, table, r.entry)
  {
    var c := Classify(raw);
    ReadStringPair(raw, c.quote, c.index, c.line, c.value, table);
  }

  /**
   * read() at a line handed to readString: it consumes just that line and
   * keeps the table. Without '=' it throws on the name; with a quote that
   * occurs only once it throws on the value; otherwise it returns the pair
   * the line denotes.
   */
  lemma QuotedLineRead(lines: seq<string>, kinds: seq<LineKind>, ready: nat -> bool, pos: nat, quote: char, table: Option<string>)
    requires Classifies(lines, kinds)
    requires pos < |lines| && ready(pos) && lines[pos] != ""
    requires quote == '"' || quote == '\''
    requires var t := Trim(lines[pos]);
      var i := IndexOf(t, '=');
      !StartsWith(t, '[') && i != 0 && StartsWith(TrimFrom(t, i + 1), quote)
    ensures var t := Trim(lines[pos]);
      var i := IndexOf(t, '=');
      var s := ReadFrom(lines, kinds, ready, pos, table);
      && s.pos == pos + 1 && s.table == table
      && (i == -1 ==> s.result == Thrown(NoSeparator))
      && (i != -1 && LastIndexOf(TrimFrom(t, i + 1), quote) == 0 ==> s.result == Thrown(UnclosedQuote))
      && (i != -1 && LastIndexOf(TrimFrom(t, i + 1), quote) != 0 ==> s.result.Returned? && IsPairOf(lines[pos], table, s.result.entry))
  {
    var t := Trim(lines[pos]);
    var i := IndexOf(t, '=');
    var rhs := TrimFrom(t, i + 1);
    assert kinds[pos] == Classify(lines[pos]) == Quoted(quote, i, t, rhs);
    QuotedStep(lines, kinds, ready, pos, table);
  }

  /** QuotedLineRead for any classification that takes the line as a quoted pair. */
  lemma QuotedStep(lines: seq<string>, kinds: seq<LineKind>, ready: nat -> bool, pos: nat, table: Option<string>)
    requires pos < |lines| == |kinds| && ready(pos) && lines[pos] != ""
    requires var c := kinds[pos];
      && c.Quoted? && c.line == Trim(lines[pos]) && !StartsWith(c.line, '[')
      && c.index == IndexOf(c.line, '=') && c.index != 0
      && c.value == TrimFrom(c.line, c.index + 1) && StartsWith(c.value, c.quote)
      && (c.quote == '"' || c.quote == '\'')
    ensures var c := kinds[pos];
      var s := ReadFrom(lines, kinds, ready, pos, table);
      && s.pos == pos + 1 && s.table == table
      && (c.index == -1 ==> s.result == Thrown(NoSeparator))
      && (c.index != -1 && LastIndexOf(c.value, c.quote) == 0 ==> s.result == Thrown(UnclosedQuote))
      && (c.index != -1 && LastIndexOf(c.value, c.quote) != 0 ==> s.result.Returned? && IsPairOf(lines[pos], table, s.result.entry))
  {
    var c := kinds[pos];
    assert SkipEmpty(lines, pos) == pos;
    ReadFromAtOther(lines, kinds, ready, pos, table);
    assert IndexOf(c.value, c.quote) == 0;
    LastIndexOfIsLast(c.value, c.quote);
    ReadStringPair(lines[pos], c.quote, c.index, c.line, c.value, table);
  }

  /** Empty lines change no table. */
  lemma {:induction false} HeaderScanSkipsEmpty(lines: seq<string>, kinds: seq<LineKind>, i: nat, k: nat, j: nat, table: Option<string>)
    requires i <= k <= j <= |lines| == |kinds|
    requires forall m :: i <= m < k ==> lines[m] == ""
    ensures HeaderScan(lines, kinds, i, j, table) == HeaderScan(lines, kinds, k, j, table)
    decreases k - i
  {
    if i < k {
      HeaderScanSkipsEmpty(lines, kinds, i + 1, k, j, table);
    }
  }

  /** Empty lines and then a header line: the scan goes on past them with the header's name. */
  lemma HeaderScanPastHeader(lines: seq<string>, kinds: seq<LineKind>, i: nat, k: nat, j: nat, table: Option<string>)
    requires i <= k < j <= |lines| == |kinds|
    requires forall m :: i <= m < k ==> lines[m] == ""
    requires lines[k] != "" && kinds[k].Header?
    ensures HeaderScan(lines, kinds, i, j, table) == HeaderScan(lines, kinds, k + 1, j, Some(kinds[k].name))
  {
    HeaderScanSkipsEmpty(lines, kinds, i, k, j, table);
  }

  /** Scanning lines[i..j] is scanning lines[i..m] and then lines[m..j] from where the first scan left the table. */
  lemma {:induction false} HeaderScanSplit(lines: seq<string>, kinds: seq<LineKind>, i: nat, m: nat, j: nat, table: Option<string>)
    requires i <= m <= j <= |lines| == |kinds|
    ensures HeaderScan(lines, kinds, i, j, table) == HeaderScan(lines, kinds, m, j, HeaderScan(lines, kinds, i, m, table))
    decreases m - i
  {
    if i < m {
      HeaderScanSplit(lines, kinds, i + 1, m, j, if lines[i] != "" && kinds[i].Header? then Some(kinds[i].name) else table);
    }
  }

  /** A run of empty lines leads to the same non-empty line from anywhere inside it. */
  lemma SkipEmptyInRun(lines: seq<string>, i: nat, k: nat)
    requires i <= k <= |lines|
    requires forall m :: i <= m < k ==> lines[m] == ""
    ensures SkipEmpty(lines, i) == SkipEmpty(lines, k)
  {
  }

  /** read() when ready() says false: the sentinel, nothing consumed, and the table cleared. */
  lemma NotReadyEnds(lines: seq<string>, kinds: seq<LineKind>, ready: nat -> bool, pos: nat, table: Option<string>)
    requires pos <= |lines| == |kinds| && !ready(pos)
    ensures ReadFrom(lines, kinds, ready, pos, table) == Step(Returned(End), pos, None)
  {
  }

  /** read() when the first readLine() gives null: null, and the table left as it was. */
  lemma EndOfInputIsNull(lines: seq<string>, kinds: seq<LineKind>, ready: nat -> bool, table: Option<string>)
    requires |lines| == |kinds| && ready(|lines|)
    ensures ReadFrom(lines, kinds, ready, |lines|, table) == Step(Null, |lines|, table)
  {
  }

  /**
   * A header line installs its name as the table and read() goes on with
   * the next line; a header without ']' throws and leaves the table alone.
   */
  lemma HeaderSetsTable(lines: seq<string>, kinds: seq<LineKind>, ready: nat -> bool, pos: nat, table: Option<string>)
    requires pos < |lines| == |kinds| && ready(pos) && SkipEmpty(lines, pos) < |lines|
    ensures var k := SkipEmpty(lines, pos);
      && (kinds[k].Header? ==>
            ReadFrom(lines, kinds, ready, pos, table) == ReadFrom(lines, kinds, ready, k + 1, Some(kinds[k].name)))
      && (kinds[k].BadHeader? ==>
            ReadFrom(lines, kinds, ready, pos, table) == Step(Thrown(NoClosingBracket), k + 1, table))
  {
  }

  /**
   * read() at a line that is not a header: it consumes just that line, and
   * keeps the table unless it returns the sentinel, which it does exactly
   * for an unrecognised line; a pair comes from readString on a quoted line.
   */
  lemma ReadFromAtOther(lines: seq<string>, kinds: seq<LineKind>, ready: nat -> bool, pos: nat, table: Option<string>)
    requires pos < |lines| == |kinds| && ready(pos) && SkipEmpty(lines, pos) < |lines|
    requires !kinds[SkipEmpty(lines, pos)].Header?
    ensures var k := SkipEmpty(lines, pos);
      var c := kinds[k];
      var s := ReadFrom(lines, kinds, ready, pos, table);
      && s.pos == k + 1
      && (s.result == Returned(End) <==> c.Unrecognized?)
      && (s.result != Returned(End) ==> s.table == table)
      && (c.BadHeader? ==> s.result == Thrown(NoClosingBracket))
      && (c.Quoted? ==> s.result == ReadString(c.quote, c.index, c.line, c.value, table))
  {
  }

  /** At `j`, read() stops on what it finds instead of going on past a header line. */
  ghost predicate StopsAt(lines: seq<string>, kinds: seq<LineKind>, ready: nat -> bool, j: nat)
    requires j <= |lines| == |kinds|
  {
    !ready(j) || j == |lines| || SkipEmpty(lines, j) == |lines| || !kinds[SkipEmpty(lines, j)].Header?
  }

  /**
   * read() goes on only past header lines: from `pos` it reaches a line `j`
   * where it stops, with the table the header lines in between left, and
   * does there what it would do when called at `j` with that table.
   */
  lemma {:induction false} HeaderRun(lines: seq<string>, kinds: seq<LineKind>, ready: nat -> bool, pos: nat, table: Option<string>)
      returns (j: nat, t: Option<string>)
    requires pos <= |lines| == |kinds|
    ensures pos <= j <= |lines| && StopsAt(lines, kinds, ready, j)
    ensures t == HeaderScan(lines, kinds, pos, j, table)
    ensures ReadFrom(lines, kinds, ready, pos, table) == ReadFrom(lines, kinds, ready, j, t)
    decreases |lines| - pos
  {
    if StopsAt(lines, kinds, ready, pos) {
      j, t := pos, table;
    } else {
      var k := SkipEmpty(lines, pos);
      var name := kinds[k].name;
      HeaderSetsTable(lines, kinds, ready, pos, table);
      j, t := HeaderRun(lines, kinds, ready, k + 1, Some(name));
      HeaderScanPastHeader(lines, kinds, pos, k, j, table);
    }
  }

  /**
   * Only header lines and termination write the table: after read() the
   * table is None if it returned the sentinel, and otherwise the one the
   * header lines it went through installed (the old one if there were none).
   */
  lemma {:induction false} TableOnlyFromHeaders(lines: seq<string>, kinds: seq<LineKind>, ready: nat -> bool, pos: nat, table: Option<string>)
    requires pos <= |lines| == |kinds|
    ensures var s := ReadFrom(lines, kinds, ready, pos, table);
      if s.result == Returned(End) then s.table == None else s.table == HeaderScan(lines, kinds, pos, s.pos, table)
  {
    var s := ReadFrom(lines, kinds, ready, pos, table);
    var j, t := HeaderRun(lines, kinds, ready, pos, table);
    if s.result != Returned(End) {
      HeaderScanSplit(lines, kinds, pos, j, s.pos, table);
      if ready(j) && j < |lines| {
        var k := SkipEmpty(lines, j);
        HeaderScanSkipsEmpty(lines, kinds, j, k, s.pos, t);
        if k < |lines| {
          ReadFromAtOther(lines, kinds, ready, j, t);
        }
      }
    }
  }

  /**
   * The step returns a pair only as readString made it from the kind of the
   * last line the step consumed, under the table the step leaves.
   */
  ghost predicate MadeByReadString(kinds: seq<LineKind>, s: Step) {
    s.result.Returned? && s.result.entry.Pair? ==>
      && 0 < s.pos <= |kinds|
      && var c := kinds[s.pos - 1];
      && c.Quoted?
      && s.result == ReadString(c.quote, c.index, c.line, c.value, s.table)
  }

  /** Where read() stops, a pair can only come from readString on the line it stops on. */
  lemma PairAtStop(lines: seq<string>, kinds: seq<LineKind>, ready: nat -> bool, j: nat, t: Option<string>, s: Step)
    requires j <= |lines| == |kinds| && StopsAt(lines, kinds, ready, j)
    requires s == ReadFrom(lines, kinds, ready, j, t)
    ensures MadeByReadString(kinds, s)
    ensures s.result.Returned? && s.result.entry.Pair? ==> j < s.pos
  {
    if ready(j) && j < |lines| && SkipEmpty(lines, j) < |lines| {
      ReadFromAtOther(lines, kinds, ready, j, t);
    }
  }

  /** A pair read() returns is what readString made of the last line it consumed, under the table it leaves. */
  lemma PairFromQuotedLine(lines: seq<string>, kinds: seq<LineKind>, ready: nat -> bool, pos: nat, table: Option<string>)
    requires pos <= |lines| == |kinds|
    ensures var s := ReadFrom(lines, kinds, ready, pos, table);
      && MadeByReadString(kinds, s)
      && (s.result.Returned? && s.result.entry.Pair? ==> pos < s.pos)
  {
    var s := ReadFrom(lines, kinds, ready, pos, table);
    var j, t := HeaderRun(lines, kinds, ready, pos, table);
    PairAtStop(lines, kinds, ready, j, t, s);
  }

  /** A pair read() returns is the pair its last consumed line denotes under the table it leaves. */
  lemma PairFromLastLine(lines: seq<string>, kinds: seq<LineKind>, ready: nat -> bool, pos: nat, table: Option<string>)
    requires Classifies(lines, kinds) && pos <= |lines|
    ensures var s := ReadFrom(lines, kinds, ready, pos, table);
      s.result.Returned? && s.result.entry.Pair? ==> pos < s.pos && IsPairOf(lines[s.pos - 1], s.table, s.result.entry)
  {
    var s := ReadFrom(lines, kinds, ready, pos, table);
    PairFromQuotedLine(lines, kinds, ready, pos, table);
    if s.result.Returned? && s.result.entry.Pair? {
      assert kinds[s.pos - 1] == Classify(lines[s.pos - 1]);
      QuotedLinePair(lines[s.pos - 1], s.table);
    }
  }

  /** Empty lines before a line are skipped without touching the table. */
  lemma BlankLinesSkipped(lines: seq<string>, kinds: seq<LineKind>, ready: nat -> bool, pos: nat, k: nat, table: Option<string>)
    requires pos <= k < |lines| == |kinds|
    requires forall m :: pos <= m < k ==> lines[m] == ""
    requires ready(pos) && ready(k)
    ensures ReadFrom(lines, kinds, ready, pos, table) == ReadFrom(lines, kinds, ready, k, table)
  {
    SkipEmptyInRun(lines, pos, k);
  }

  /** Empty lines up to the end of input make the blank-line loop dereference null. */
  lemma TrailingBlankLinesThrow(lines: seq<string>, kinds: seq<LineKind>, ready: nat -> bool, pos: nat, table: Option<string>)
    requires pos < |lines| == |kinds| && ready(pos)
    requires forall m :: pos <= m < |lines| ==> lines[m] == ""
    ensures ReadFrom(lines, kinds, ready, pos, table) == Step(Thrown(EmptyLineAtEnd), |lines|, table)
  {
    SkipEmptyInRun(lines, pos, |lines|);
  }

  /** The first unrecognised line ends the parse: the sentinel comes back and the table is cleared. */
  lemma UnrecognizedLineEnds(lines: seq<string>, kinds: seq<LineKind>, ready: nat -> bool, pos: nat, table: Option<string>)
    requires pos < |lines| == |kinds| && ready(pos)
    requires SkipEmpty(lines, pos) < |lines| && kinds[SkipEmpty(lines, pos)].Unrecognized?
    ensures ReadFrom(lines, kinds, ready, pos, table) == Step(Returned(End), SkipEmpty(lines, pos) + 1, None)
  {
  }

  /**
   * The converse: the sentinel comes back only where ready() said false or
   * just after an unrecognised line.
   */
  lemma {:induction false} EndOnlyWhenUnrecognized(lines: seq<string>, kinds: seq<LineKind>, ready: nat -> bool, pos: nat, table: Option<string>)
    requires pos <= |lines| == |kinds|
    ensures var s := ReadFrom(lines, kinds, ready, pos, table);
      s.result == Returned(End) ==> !ready(s.pos) || (pos < s.pos && kinds[s.pos - 1].Unrecognized?)
    decreases |lines| - pos
  {
    var j, t := HeaderRun(lines, kinds, ready, pos, table);
    if ready(j) && j < |lines| && SkipEmpty(lines, j) < |lines| {
      ReadFromAtOther(lines, kinds, ready, j, t);
    }
  }

  /** A line of blanks is not skipped: it trims to "" and ends the parse. */
  lemma WhitespaceLineEnds(lines: seq<string>, kinds: seq<LineKind>, ready: nat -> bool, pos: nat, table: Option<string>)
    requires Classifies(lines, kinds) && pos < |lines| && ready(pos) && lines[pos] != ""
    requires forall i :: 0 <= i < |lines[pos]| ==> IsTrimmable(lines[pos][i])
    ensures ReadFrom(lines, kinds, ready, pos, table) == Step(Returned(End), pos + 1, None)
  {
    TrimEmpty(lines[pos]);
    assert kinds[pos] == Classify(lines[pos]) == Unrecognized;
  }

  /** A line whose first character, once trimmed, is '=' ends the parse. */
  lemma SeparatorFirstEnds(lines: seq<string>, kinds: seq<LineKind>, ready: nat -> bool, pos: nat, table: Option<string>)
    requires Classifies(lines, kinds) && pos < |lines| && ready(pos) && lines[pos] != ""
    requires StartsWith(Trim(lines[pos]), '=')
    ensures ReadFrom(lines, kinds, ready, pos, table) == Step(Returned(End), pos + 1, None)
  {
    assert kinds[pos] == Classify(lines[pos]) == Unrecognized;
  }

  /**
   * readString gives back exactly the text between the opening quote and a
   * closing one when neither that text nor what follows holds the quote.
   */
  lemma ReadStringExtracts(quote: char, index: int, line: string, text: string, tail: string, table: Option<string>)
    requires 1 <= index <= |line| + 1
    requires quote !in text && quote !in tail
    ensures ReadString(quote, index, line, [quote] + text + [quote] + tail, table)
      == Returned(Pair(Prefix(table) + TrimTo(line, index - 1), text))
  {
    var value := [quote] + text + [quote] + tail;
    var close := |text| + 1;
    assert value[close] == quote;
    assert forall j :: close < j < |value| ==> value[j] == tail[j - close - 1];
    LastIndexOfIsLast(value, quote);
    assert LastIndexOf(value, quote) == close;
    assert value[1..close] == text;
  }

  /** The sentinel is told apart by isEnd() alone: a pair may carry the same name and value. */
  lemma SentinelOnlyByIsEnd()
    ensures End.IsEnd() && End.Name() == "END" && End.Value() == "END"
    ensures forall n, v :: !Pair(n, v).IsEnd() && Pair(n, v).Name() == n && Pair(n, v).Value() == v
  {
  }
}
