// The BufferedReader the parser pulls its lines from. Splitting the text into
// lines is done before the model starts: the reader holds the lines already
// split, a cursor, and the answer ready() gives at each cursor position.

module LineSource {
  import opened JavaString

  /** A StringReader answers ready() with true until it is closed, even at the end of its text. */
  function AlwaysReady(pos: nat): bool {
    true
  }

  class LineReader {
    /** The lines readLine() hands out, in order, without their terminators. */
    const lines: seq<string>
    /** What ready() answers when the next line to hand out is lines[pos]. */
    const ready: nat -> bool
    /** How many lines readLine() has handed out so far. */
    var pos: nat

    ghost predicate Valid()
      reads this
    {
      pos <= |lines|
    }

    constructor (lines: seq<string>, ready: nat -> bool)
      ensures Valid()
      ensures this.lines == lines && this.ready == ready && pos == 0
    {
      this.lines := lines;
      this.ready := ready;
      pos := 0;
    }

    /** reader.ready() */
    method Ready() returns (r: bool)
      ensures r == ready(pos)
    {
      r := ready(pos);
    }

    /** reader.readLine(): the next line, or None (Java's null) once every line has been read. */
    method ReadLine() returns (line: Option<string>)
      requires Valid()
      modifies this`pos
      ensures Valid()
      ensures old(pos) < |lines| ==> line == Some(lines[old(pos)]) && pos == old(pos) + 1
      ensures old(pos) == |lines| ==> line == None && pos == old(pos)
    {
      if pos < |lines| {
        line := Some(lines[pos]);
        pos := pos + 1;
      } else {
        line := None;
      }
    }
  }
}
