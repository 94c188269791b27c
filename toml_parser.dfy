// TomlParser: a line-at-a-time reader for a small part of TOML, table
// headers and single-line basic or literal strings, with no escapes and no
// comments. Every line that is neither a header nor a quoted pair ends the
// parse.
//
// The Java code signals trouble by throwing: an out-of-range substring or a
// null line. Here those become ReadResult.Thrown with the cause spelled out.

module Toml {
  import opened JavaString
  import opened LineSource

  /** TomlEntry and its subclass TomlEnd, the end sentinel. */
  datatype TomlEntry = Pair(name: string, value: string) | End {

    /** isEnd(): overridden to answer true only in TomlEnd. */
    predicate IsEnd() {
      End?
    }

    /** The entry's name field; TomlEnd is built with "END". */
    function Name(): string {
      match this
      case Pair(n, _) => n
      case End => "END"
    }

    /** The entry's value field; TomlEnd is built with "END". */
    function Value(): string {
      match this
      case Pair(_, v) => v
      case End => "END"
    }
  }

  /** Why read() throws. */
  datatype Fault =
    | EmptyLineAtEnd    // readLine() gives null inside the blank-line loop: NullPointerException
    | NoClosingBracket  // a header with no ']': substring(1, -1)
    | NoSeparator       // a quoted right-hand side with no '=': substring(0, -2)
    | UnclosedQuote     // the quote character occurs only once: substring(1, 0)

  /** What one call of read() comes back with: an entry, null, or an exception. */
  datatype ReadResult = Returned(entry: TomlEntry) | Null | Thrown(fault: Fault)

  /** The outcome of read() together with the reader's cursor and the table field afterwards. */
  datatype Step = Step(result: ReadResult, pos: nat, table: Option<string>)

  /** The key prefix for the current table: "table." when one is set, "" otherwise. */
  function Prefix(table: Option<string>): string {
    match table
    case None => ""
    case Some(t) => t + "."
  }

  /**
   * readString(quote, index, line, value): the pair for a line whose
   * separator is at `index` and whose trimmed right-hand side is `value`.
   * The name is everything before the character that precedes the
   * separator, trimmed and prefixed; the value is what lies between the
   * first and the last occurrence of `quote`.
   */
  function ReadString(quote: char, index: int, line: string, value: string, table: Option<string>): (r: ReadResult)
    // a pair comes back exactly when the name slice is in range and `quote` occurs twice or more
    ensures r.Returned? <==> 1 <= index <= |line| + 1 && IndexOf(value, quote) < LastIndexOf(value, quote)
    ensures !r.Returned? ==> r == Thrown(if 1 <= index <= |line| + 1 then UnclosedQuote else NoSeparator)
    ensures r.Returned? ==>
      && r.entry.Pair?
      && r.entry.name == Prefix(table) + TrimTo(line, index - 1)
      && r.entry.value == value[IndexOf(value, quote) + 1..LastIndexOf(value, quote)]
  {
    var first, last := IndexOf(value, quote), LastIndexOf(value, quote);
    // line.substring(0, index - 1) throws unless 0 <= index - 1 <= line.length()
    if !(0 <= index - 1 <= |line|) then Thrown(NoSeparator)
    // value.substring(first + 1, last) throws unless 0 <= first + 1 <= last <= value.length()
    else if !(0 <= first + 1 <= last <= |value|) then Thrown(UnclosedQuote)
    // the name is line.substring(0, index - 1).trim()
    else Returned(Pair(Prefix(table) + TrimTo(line, index - 1), value[first + 1..last]))
  }

  /** How read() takes a line that is not empty, once trimmed. */
  datatype LineKind =
    | Header(name: string)                                     // sets the table
    | BadHeader                                                // starts with '[' but has no ']'
    | Quoted(quote: char, index: int, line: string, value: string)  // handed to readString
    | Unrecognized                                             // ends the parse

  /**
   * The tests read() applies to a line: it is trimmed first, then taken as
   * a header or examined as a pair.
   */
  function Classify(raw: string): (k: LineKind)
  {
    ClassifyTrimmed(Trim(raw))
  }

  /** A trimmed line is a header when it starts with '['; otherwise it is examined as a pair. */
  function ClassifyTrimmed(line: string): (k: LineKind)
  {
    if StartsWith(line, '[') then HeaderLine(line) else PairLine(line)
  }

  /** A header's name runs from after the '[' up to the first ']'; without a ']' the substring throws. */
  function HeaderLine(line: string): (k: LineKind)
  {
    match Substring(line, 1, IndexOf(line, ']'))
    case None => BadHeader
    case Some(name) => Header(name)
  }

  /**
   * A quoted pair when the first '=' is not at the front and the trimmed
   * text after it starts with a double or single quote; anything else is
   * unrecognised. A line without '=' is examined whole, as if the separator
   * stood just before it.
   */
  function PairLine(line: string): (k: LineKind)
  {
    var index := IndexOf(line, '=');
    if index != 0 then
      var value := TrimFrom(line, index + 1);
      if StartsWith(value, '"') then Quoted('"', index, line, value)
      else if StartsWith(value, '\'') then Quoted('\'', index, line, value)
      else Unrecognized
    else Unrecognized
  }

  /** The first line at or after `i` that is not empty, or |lines| when there is none. */
  function SkipEmpty(lines: seq<string>, i: nat): (k: nat)
    requires i <= |lines|
    ensures i <= k <= |lines|
    ensures forall j :: i <= j < k ==> lines[j] == ""
    ensures k < |lines| ==> lines[k] != ""
    decreases |lines| - i
  {
    if i == |lines| || lines[i] != "" then i else SkipEmpty(lines, i + 1)
  }

  /** How read() takes each of the lines, in order. */
  function Kinds(lines: seq<string>): (kinds: seq<LineKind>)
    ensures |kinds| == |lines|
    ensures forall i :: 0 <= i < |lines| ==> kinds[i] == Classify(lines[i])
  {
    seq(|lines|, i requires 0 <= i < |lines| => Classify(lines[i]))
  }

  /**
   * `kinds` takes every one of the lines as read() does; Kinds(lines) is such a
   * sequence. The link to a line is made only where Classify of that line is named.
   */
  ghost predicate Classifies(lines: seq<string>, kinds: seq<LineKind>)
  {
    && |kinds| == |lines|
    && forall i {:trigger Classify(lines[i])} :: 0 <= i < |lines| ==> kinds[i] == Classify(lines[i])
  }

  /**
   * read() as a function of the reader's lines, how each of them is taken
   * (`kinds`, which the parser computes with Kinds), its ready() answers,
   * the cursor `pos` and the table field: what it returns, where it leaves
   * the cursor and what it leaves in the table field.
   */
  function ReadFrom(lines: seq<string>, kinds: seq<LineKind>, ready: nat -> bool, pos: nat, table: Option<string>): (s: Step)
    requires pos <= |lines| == |kinds|
    ensures pos <= s.pos <= |lines|
    ensures s.result.Returned? && s.result.entry.Pair? ==> pos < s.pos
    ensures s.result == Returned(End) ==> s.table == None
    ensures s.result.Null? ==> s.pos == |lines|
    decreases |lines| - pos
  {
    if !ready(pos) then Step(Returned(End), pos, None)
    else if pos == |lines| then Step(Null, pos, table)
    else
      var k := SkipEmpty(lines, pos);
      if k == |lines| then Step(Thrown(EmptyLineAtEnd), k, table)
      else
        match kinds[k]
        case Header(name) => ReadFrom(lines, kinds, ready, k + 1, Some(name))
        case BadHeader => Step(Thrown(NoClosingBracket), k + 1, table)
        case Quoted(quote, index, line, value) => Step(ReadString(quote, index, line, value, table), k + 1, table)
        case Unrecognized => Step(Returned(End), k + 1, None)
  }

  /** What forEach() hands the consumer, how it stops, and the cursor and table it leaves. */
  datatype Walk = Walk(entries: seq<TomlEntry>, failure: Option<Fault>, pos: nat, table: Option<string>)

  /**
   * forEach() as a function: the entries read() returns, in order, up to the
   * first null, the first sentinel or the first exception. The sentinel is
   * never handed on.
   */
  function Visit(lines: seq<string>, kinds: seq<LineKind>, ready: nat -> bool, pos: nat, table: Option<string>): (w: Walk)
    requires pos <= |lines| == |kinds|
    ensures pos <= w.pos <= |lines|
    ensures forall i :: 0 <= i < |w.entries| ==> !w.entries[i].IsEnd()
    decreases |lines| - pos
  {
    var s := ReadFrom(lines, kinds, ready, pos, table);
    match s.result
    case Returned(Pair(_, _)) =>
      var rest := Visit(lines, kinds, ready, s.pos, s.table);
      rest.(entries := [s.result.entry] + rest.entries)
    case Returned(End) => Walk([], None, s.pos, s.table)
    case Null => Walk([], None, s.pos, s.table)
    case Thrown(f) => Walk([], Some(f), s.pos, s.table)
  }

  /** After read() returns a pair, forEach() hands it on and carries on from where read() left off. */
  lemma VisitAfterPair(lines: seq<string>, kinds: seq<LineKind>, ready: nat -> bool, pos: nat, table: Option<string>)
    requires pos <= |lines| == |kinds|
    requires ReadFrom(lines, kinds, ready, pos, table).result.Returned? && ReadFrom(lines, kinds, ready, pos, table).result.entry.Pair?
    ensures var s := ReadFrom(lines, kinds, ready, pos, table);
      var rest := Visit(lines, kinds, ready, s.pos, s.table);
      Visit(lines, kinds, ready, pos, table) == rest.(entries := [s.result.entry] + rest.entries)
  {
  }

  /** After read() returns anything but a pair, forEach() stops with nothing more handed on. */
  lemma VisitAfterStop(lines: seq<string>, kinds: seq<LineKind>, ready: nat -> bool, pos: nat, table: Option<string>)
    requires pos <= |lines| == |kinds|
    requires var r := ReadFrom(lines, kinds, ready, pos, table).result; !(r.Returned? && r.entry.Pair?)
    ensures var s := ReadFrom(lines, kinds, ready, pos, table);
      Visit(lines, kinds, ready, pos, table) == Walk([], if s.result.Thrown? then Some(s.result.fault) else None, s.pos, s.table)
  {
  }

  class TomlParser {
    const reader: LineReader
    var table: Option<string>

    ghost predicate Valid()
      reads this, reader
    {
      reader.Valid()
    }

    /** TomlParser(String s), with the text already split into lines. */
    constructor (lines: seq<string>, ready: nat -> bool)
      ensures Valid() && fresh(reader)
      ensures reader.lines == lines && reader.ready == ready && reader.pos == 0 && table == None
    {
      reader := new LineReader(lines, ready);
      table := None;
    }

    /** read(): the next entry, the sentinel, or null. */
    method Read() returns (r: ReadResult)
      requires Valid()
      modifies this, reader
      ensures Valid()
      ensures Step(r, reader.pos, table) == ReadFrom(reader.lines, Kinds(reader.lines), reader.ready, old(reader.pos), old(table))
      decreases |reader.lines| - reader.pos
    {
      var isReady := reader.Ready();
      if isReady {
        var first := reader.ReadLine();
        if first.None? {
          return Null;
        }
        var line := first.value;
        while line == ""
          invariant reader.Valid() && old(reader.pos) < reader.pos
          invariant line == reader.lines[reader.pos - 1]
          invariant SkipEmpty(reader.lines, old(reader.pos)) == SkipEmpty(reader.lines, reader.pos - 1)
          invariant table == old(table)
          decreases |reader.lines| - reader.pos
        {
          var next := reader.ReadLine();
          if next.None? {
            // line.isEmpty() on the null that readLine() gave
            assert SkipEmpty(reader.lines, reader.pos - 1) == |reader.lines|;
            return Thrown(EmptyLineAtEnd);
          }
          line := next.value;
        }
        assert SkipEmpty(reader.lines, old(reader.pos)) == reader.pos - 1;
        ghost var rest := ReadFrom(reader.lines, Kinds(reader.lines), reader.ready, old(reader.pos), old(table));
        // the trim, '[', ']' and '=' tests of read() on the line, as Classify states them
        var kind := Classify(line);
        assert Kinds(reader.lines)[reader.pos - 1] == kind;
        match kind
        case Header(name) =>
          table := Some(name);
          assert rest == ReadFrom(reader.lines, Kinds(reader.lines), reader.ready, reader.pos, table);
          r := Read();
          return;
        case BadHeader =>
          assert rest == Step(Thrown(NoClosingBracket), reader.pos, table);
          return Thrown(NoClosingBracket);
        case Quoted(quote, index, trimmed, value) =>
          assert rest == Step(ReadString(quote, index, trimmed, value, table), reader.pos, table);
          return ReadString(quote, index, trimmed, value, table);
        case Unrecognized =>
          assert rest == Step(Returned(End), reader.pos, None);
      }
      table := None;
      r := Returned(End);
    }

    /**
     * forEach(consumer): the consumer's calls are recorded in `visited`;
     * `failure` is the exception read() threw, if it threw one.
     */
    method ForEach() returns (visited: seq<TomlEntry>, failure: Option<Fault>)
      requires Valid()
      modifies this, reader
      ensures Valid()
      ensures var w := Visit(reader.lines, Kinds(reader.lines), reader.ready, old(reader.pos), old(table));
        visited == w.entries && failure == w.failure && reader.pos == w.pos && table == w.table
    {
      ghost var lines, kinds, ready := reader.lines, Kinds(reader.lines), reader.ready;
      ghost var whole := Visit(lines, kinds, ready, reader.pos, table);
      ghost var before: nat, tableBefore := reader.pos, table;
      visited := [];
      var entry := Read();
      while entry.Returned? && !entry.entry.IsEnd()
        invariant Valid() && reader.lines == lines && reader.ready == ready && before <= |lines|
        invariant Step(entry, reader.pos, table) == ReadFrom(lines, kinds, ready, before, tableBefore)
        invariant whole.entries == visited + Visit(lines, kinds, ready, before, tableBefore).entries
        invariant whole.failure == Visit(lines, kinds, ready, before, tableBefore).failure
        invariant whole.pos == Visit(lines, kinds, ready, before, tableBefore).pos
        invariant whole.table == Visit(lines, kinds, ready, before, tableBefore).table
        decreases |lines| - reader.pos, if entry.Returned? && entry.entry.Pair? then 1 else 0
      {
        VisitAfterPair(lines, kinds, ready, before, tableBefore);
        assert visited + [entry.entry] + Visit(lines, kinds, ready, reader.pos, table).entries
          == visited + ([entry.entry] + Visit(lines, kinds, ready, reader.pos, table).entries);
        visited := visited + [entry.entry];
        before, tableBefore := reader.pos, table;
        entry := Read();
      }
      VisitAfterStop(lines, kinds, ready, before, tableBefore);
      failure := if entry.Thrown? then Some(entry.fault) else None;
    }
  }
}
