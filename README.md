# TomlParser, modelled in Dafny

The gradle-cargo-wrapper plugin reads Cargo configuration with `TomlParser`. This is a
line-at-a-time reader for a small part of TOML: table headers (`[name]`) and single-line
basic or literal strings (`key = "value"`, `key = 'value'`). It handles no escapes, no
comments and no other value types. Any line it does not recognise ends the parse with the
`TomlEnd` sentinel.

The project models that parser as the code is written, quirks included:

- **`java_string.dfy`** (module `JavaString`): the `java.lang.String` operations the
  parser relies on, with Java's meanings.
  - `trim()` strips characters up to U+0020.
  - `indexOf` and `lastIndexOf` give -1 when the character is absent.
  - `substring` fails outside `0 <= begin <= end <= length`.
- **`line_source.dfy`** (module `LineSource`): the `BufferedReader`, as a class holding
  lines that are already split, a cursor, and the answer `ready()` gives at each cursor
  position.
- **`toml_parser.dfy`** (module `Toml`): the entries and the parser itself.
  - `TomlEntry` and `TomlEnd` with `isEnd()`.
  - `readString` as the function `ReadString`.
  - A functional statement of `read()` (`ReadFrom`) and of `forEach()` (`Visit`).
  - The class `TomlParser`, whose field `table` and reader cursor are updated in place by
    the methods `Read` (its blank-line loop and its self-call on a header) and `ForEach`
    (its loop). Each method is proved equal to its functional statement.
  - A Java exception becomes `ReadResult.Thrown` with its cause:
    - a header without `]`;
    - a quoted right-hand side in a line without `=`;
    - a value holding its quote only once;
    - `readLine()` giving null inside the blank-line loop.
  - `null` from `read()` is `ReadResult.Null`.
- **`toml_properties.dfy`** (module `TomlProperties`): what `read()` promises.
  - Headers set the table, and only headers and termination write it.
  - A line is handed to `readString` exactly when its trim is no header, its first `=` is
    not at the front and the trimmed text after it opens with a quote.
  - A returned pair is the pair its line denotes: the name prefix, the dropped character
    before `=`, and the value between the first and the last quote.
  - Blank lines are skipped. A whitespace-only line or a line starting with `=` ends the
    parse.
  - The sentinel comes back exactly after an unrecognised line or a false `ready()`.
  - Trailing blank lines throw.
- **`toml_samples.dfy`** (module `TomlSamples`): concrete lines and the entries the parser
  makes of them.

Two behaviours are modelled as the code has them, not as a tidy TOML reader would have them:

- When the sentinel came from an unrecognised line, calling `read()` again does not keep
  returning the sentinel. That line has been consumed, so the next call goes on with the
  line after it, with the table cleared. `ReadFrom` has exactly this behaviour
  (`UnrecognizedLineEnds`). A sentinel caused by a false `ready()` consumes nothing, so
  the next call returns the sentinel again for as long as `ready()` stays false
  (`NotReadyEnds`).
- A text whose last lines are empty makes `read()` dereference null. This is
  `TrailingBlankLinesThrow`.

## Model

| member | source | states |
|---|---|---|
| Toml.TomlParser.Read | src/main/java/ai/arcblroth/cargo/TomlParser.java:36-62 | read() returns, leaves the reader's cursor at and leaves in `table` exactly what `ReadFrom` gives for the old cursor and old table; the blank-line loop and the self-call on a header are proved against it |
| Toml.TomlParser.ForEach | src/main/java/ai/arcblroth/cargo/TomlParser.java:28-34 | the entries handed to the consumer, the exception that stops the loop, the final cursor and the final table are those of `Visit` from the old state |
| Toml.TomlParser.constructor | src/main/java/ai/arcblroth/cargo/TomlParser.java:24-26 | a parser over the given lines starts at the first line with no table |
| LineSource.LineReader.ReadLine | src/main/java/ai/arcblroth/cargo/TomlParser.java:38-43 | readLine() hands out the next line and advances, or gives null (None) at the end and stays put |
| Toml.ReadString | src/main/java/ai/arcblroth/cargo/TomlParser.java:64-69 | a pair comes back exactly when the separator index leaves a valid name slice and the quote occurs at least twice; otherwise the matching exception; the name is the table prefix plus the trimmed text before the character preceding `=`, the value lies between the first and last quote |
| Toml.SkipEmpty | src/main/java/ai/arcblroth/cargo/TomlParser.java:42-43 | the blank-line loop stops at the first non-empty line at or after the cursor, or at the end, and everything it passes over is empty |
| Toml.ReadFrom | src/main/java/ai/arcblroth/cargo/TomlParser.java:36-62 | read() never moves the cursor back nor past the end; a pair consumes at least one line; the sentinel always comes with a cleared table; null only at the end of input |
| Toml.Visit | src/main/java/ai/arcblroth/cargo/TomlParser.java:28-34 | forEach() never hands on an entry whose isEnd() is true, and leaves the cursor within the input |
| Toml.VisitAfterPair | src/main/java/ai/arcblroth/cargo/TomlParser.java:30-32 | when read() returns a pair, forEach() hands it on first and then continues from the state read() left |
| Toml.VisitAfterStop | src/main/java/ai/arcblroth/cargo/TomlParser.java:30 | when read() returns null, the sentinel or throws, forEach() hands on nothing and stops, reporting the exception if there was one |
| TomlProperties.HeaderName | src/main/java/ai/arcblroth/cargo/TomlParser.java:46-47 | a line is a header (good or bad) exactly when its trim starts with `[`; a header's table name is the text between `[` and the first `]`, and a bad header has no `]` at all |
| TomlProperties.QuotedLine | src/main/java/ai/arcblroth/cargo/TomlParser.java:44-57 | a line goes to readString exactly when its trim is no header, its first `=` is not at the front (a missing `=` counts as -1) and the trimmed text after that `=` opens with `"` or `'`; that character becomes the quote and the trimmed text the value |
| TomlProperties.PairLineQuoted | src/main/java/ai/arcblroth/cargo/TomlParser.java:52-57 | on a trimmed line, the pair branch yields a quoted kind exactly when the first `=` is not at the front and the trimmed right-hand side opens with a quote, and then carries that quote, index, line and right-hand side |
| TomlProperties.QuotedStep | src/main/java/ai/arcblroth/cargo/TomlParser.java:52-68 | at a ready, non-empty line classified as quoted, read() consumes just that line and keeps the table; it throws for a missing `=`, throws for a quote that does not recur, and otherwise returns the pair the line denotes |
| TomlProperties.QuotedLineRead | src/main/java/ai/arcblroth/cargo/TomlParser.java:37-68 | the same in terms of the text alone: a ready, non-empty line whose trim is no header, has no `=` at the front and a quoted right-hand side is consumed alone with the table kept, and gives NoSeparator without `=`, UnclosedQuote when the quote does not recur, and otherwise the pair the line denotes |
| TomlProperties.BetweenQuotes | src/main/java/ai/arcblroth/cargo/TomlParser.java:67 | the text between the opening quote and its last occurrence is followed by the quote and then by no other occurrence of it |
| TomlProperties.ReadStringPair | src/main/java/ai/arcblroth/cargo/TomlParser.java:64-68 | for any line with a quoted right-hand side, a pair readString returns is the pair the line denotes (`IsPairOf`) |
| TomlProperties.QuotedLinePair | src/main/java/ai/arcblroth/cargo/TomlParser.java:52-68 | for a line read() hands to readString, the pair that comes back is the pair the line denotes |
| TomlProperties.NotReadyEnds | src/main/java/ai/arcblroth/cargo/TomlParser.java:37-61 | when ready() is false, read() returns the sentinel, consumes nothing and clears the table |
| TomlProperties.EndOfInputIsNull | src/main/java/ai/arcblroth/cargo/TomlParser.java:38-40 | when the first readLine() gives null, read() returns null and leaves the table unchanged |
| TomlProperties.HeaderSetsTable | src/main/java/ai/arcblroth/cargo/TomlParser.java:46-48 | a header installs its name as the table and read() goes on with the next line; a header without `]` throws and leaves the table alone |
| TomlProperties.ReadFromAtOther | src/main/java/ai/arcblroth/cargo/TomlParser.java:52-61 | at a non-header line read() consumes exactly that line, returns the sentinel exactly when the line is unrecognised, keeps the table otherwise, and returns readString's result for a quoted line |
| TomlProperties.TableOnlyFromHeaders | src/main/java/ai/arcblroth/cargo/TomlParser.java:46-61 | after read(), the table is None if the sentinel came back, and otherwise the one left by the header lines it went through (the old one if there were none): returning a pair never changes it |
| TomlProperties.HeaderRun | src/main/java/ai/arcblroth/cargo/TomlParser.java:42-48 | read() goes on only past header lines: it reaches a line where it stops, with the table the headers in between installed, and does there what it would do when called at that line |
| TomlProperties.PairAtStop | src/main/java/ai/arcblroth/cargo/TomlParser.java:52-57 | where read() does not go on past a header, a pair can come only from readString on the line it consumes |
| TomlProperties.PairFromQuotedLine | src/main/java/ai/arcblroth/cargo/TomlParser.java:36-57 | a pair read() returns comes from readString on the last line it consumed, under the table it leaves, and at least one line was consumed |
| TomlProperties.PairFromLastLine | src/main/java/ai/arcblroth/cargo/TomlParser.java:44-68 | a pair read() returns is the pair its last consumed line denotes under the resulting table: the table name and a dot (nothing without a table), then the trimmed text before the character preceding `=`, value strictly between the first and last quote |
| TomlProperties.BlankLinesSkipped | src/main/java/ai/arcblroth/cargo/TomlParser.java:42-43 | empty lines before a line change nothing: read() from before them is read() from that line |
| TomlProperties.TrailingBlankLinesThrow | src/main/java/ai/arcblroth/cargo/TomlParser.java:42-43 | empty lines running to the end of input make the blank-line loop dereference null, with the table unchanged |
| TomlProperties.UnrecognizedLineEnds | src/main/java/ai/arcblroth/cargo/TomlParser.java:52-61 | the first unrecognised line yields the sentinel, clears the table and leaves the cursor just after it, so a later read() resumes from the next line |
| TomlProperties.EndOnlyWhenUnrecognized | src/main/java/ai/arcblroth/cargo/TomlParser.java:37-61 | the converse: the sentinel comes back only where ready() was false or just after an unrecognised line |
| TomlProperties.WhitespaceLineEnds | src/main/java/ai/arcblroth/cargo/TomlParser.java:42-44 | a non-empty line of blanks is not skipped: it trims to "" and ends the parse |
| TomlProperties.SeparatorFirstEnds | src/main/java/ai/arcblroth/cargo/TomlParser.java:52-53 | a line whose trim starts with `=` ends the parse |
| TomlProperties.ReadStringExtracts | src/main/java/ai/arcblroth/cargo/TomlParser.java:67 | a quoted value gives back exactly the text between its quotes when the quote occurs nowhere else |
| TomlProperties.SentinelOnlyByIsEnd | src/main/java/ai/arcblroth/cargo/TomlParser.java:85-98 | isEnd() is true only for the sentinel, whose name and value are "END"; a pair keeps its name and value and is never the sentinel |
| JavaString.Trim | src/main/java/ai/arcblroth/cargo/TomlParser.java:44 | trim() never lengthens, and a non-empty result has nothing removable at either end |
| JavaString.TrimIsInfix | src/main/java/ai/arcblroth/cargo/TomlParser.java:44 | trim() keeps one contiguous piece and drops only removable characters around it |
| JavaString.TrimEmpty | src/main/java/ai/arcblroth/cargo/TomlParser.java:44 | trim() gives "" exactly for strings of removable characters |
| JavaString.TrimFromIsTrim | src/main/java/ai/arcblroth/cargo/TomlParser.java:55 | trimming from an offset is trimming the suffix taken there |
| JavaString.TrimToIsTrim | src/main/java/ai/arcblroth/cargo/TomlParser.java:66 | trimming up to an offset is trimming the prefix that ends there |
| JavaString.IndexOfIsFirst | src/main/java/ai/arcblroth/cargo/TomlParser.java:52 | indexOf finds the first occurrence and answers -1 only when there is none |
| JavaString.LastIndexOfIsLast | src/main/java/ai/arcblroth/cargo/TomlParser.java:67 | lastIndexOf finds the last occurrence: nothing after it is the character |
| JavaString.Substring | src/main/java/ai/arcblroth/cargo/TomlParser.java:47 | substring succeeds exactly for `0 <= begin <= end <= length` and then gives that slice |
| TomlSamples.SpacedPair | src/main/java/ai/arcblroth/cargo/TomlParser.java:52-68 | `a = "v1"` with no table reads as the pair (a, v1) |
| TomlSamples.TightPairDropsKey | src/main/java/ai/arcblroth/cargo/TomlParser.java:52-68 | read() on the line `a="x"` returns the pair with an empty key and value x: the character before `=` is always dropped |
| TomlSamples.HeaderThenPairThenComment | src/main/java/ai/arcblroth/cargo/TomlParser.java:28-61 | `[t]`, an empty line, `b = 'v2'`, `# c`: forEach() hands on (t.b, v2), then the comment ends the parse and clears the table |
| TomlSamples.ParseHeaderThenPair | src/main/java/ai/arcblroth/cargo/TomlParser.java:28-34 | the same text through the parser object hands on just (t.b, v2) with no exception |

## Left out

- `CargoWrapperPlugin.java` is not part of this model. It is Gradle wiring with no logic of its own, and it never calls the parser.
- The `File` constructor (lines 20-22) and `close()` (lines 71-74) are library I/O. The model starts from a parser built over text (`TomlParser(String)`).
- How `BufferedReader.readLine()` splits text on `\r`, `\n` and `\r\n` is not modelled. The reader is given lines that are already split.
- What `ready()` answers is not modelled. It differs between file and string readers, so it is a parameter: a predicate of the cursor position. `AlwaysReady` stands for a string reader.
- `IOException` from the reader is not modelled. A reader over text never throws one.
- The consumer passed to `forEach()` is recorded as the sequence of entries it receives. Its own side effects are not modelled.
- Characters are Dafny `char`s compared by code point, whereas Java's `trim()`, `indexOf`, `lastIndexOf`, `substring` and `startsWith` work on UTF-16 units. Every character searched for (`[`, `]`, `=`, `"`, `'`) and every character `trim()` removes lies in the Basic Multilingual Plane, so a unit matches one of them exactly when the character does. Positions still differ wherever a character outside that plane comes earlier in the line, and every place the results depend on such a position agrees except the one below.
- Toml.ReadString: the name ends one position before the `=`. In Java that position is one UTF-16 unit, not one character. When the character just before the first `=` lies outside the Basic Multilingual Plane (the line `😀="x"`), Java keeps that character's high surrogate as the last character of the name and returns (`"\uD83D"`, `x`). The model drops the whole character and returns (`""`, `x`): its strings are sequences of code points and cannot hold a lone surrogate.
