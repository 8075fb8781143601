/**
 * The text of one output line: indentation segments, the connector glyph,
 * the horizontal rule, the name and, for files, the size annotation.
 */
module LineFormat {
  import opened FileSystem
  import opened Decimal

  /**
   * `getFormattedFileSize`: a positive size is written as `(<decimal>b)`,
   * anything else as `(empty)`.
   */
  function FormattedFileSize(size: int64): (r: string)
    ensures size <= 0 <==> r == "(empty)"
    ensures size > 0 ==>
      && |r| >= 4 && r[0] == '(' && r[|r| - 2..] == "b)"
      && IsDigits(r[1..|r| - 2]) && r[1] != '0'
      && DecimalValue(r[1..|r| - 2]) == size as nat
  {
    if size > 0 then
      var digits := NatToDecimal(size as nat);
      var r := "(" + digits + "b)";
      assert r[1..|r| - 2] == digits;
      assert r[1] == digits[0];
      DecimalRoundTrip(size as nat);
      r
    else
      "(empty)"
  }

  /** The connector of `GetDrawChar`: the last sibling gets the corner glyph. */
  function Connector(isLast: bool): string {
    if isLast then "└" else "├"
  }

  /**
   * One indentation segment of `GetDrawableString`: a vertical bar continues
   * past an ancestor that still has siblings below it.
   */
  function Segment(isLast: bool): string {
    if isLast then "\t" else "│\t"
  }

  /** The indentation for the given ancestor flags, outermost ancestor first. */
  function Prefix(flags: seq<bool>): string {
    if flags == [] then "" else Segment(flags[0]) + Prefix(flags[1..])
  }

  /**
   * What one rendered line says about one entry: its file information, for
   * each ancestor between the root and the entry (outermost first) whether
   * that ancestor is the last of its siblings, and whether the entry itself is.
   */
  datatype Row = Row(info: FileInfo, flags: seq<bool>, isLast: bool)

  /** The size annotation, present only for entries that are not directories. */
  function SizeSuffix(info: FileInfo): string {
    if info.isDir then "" else " " + FormattedFileSize(info.size)
  }

  /** The exact line `GetDrawableString` produces for a row. */
  function RowLine(r: Row): string {
    Prefix(r.flags) + Connector(r.isLast) + "───" + r.info.name + SizeSuffix(r.info) + "\n"
  }

  /** Reads the leading indentation segments of a line back into ancestor flags. */
  function ParseIndent(line: string): (string, seq<bool>)
    decreases |line|
  {
    if |line| >= 2 && line[0] == '│' && line[1] == '\t' then
      var (rest, flags) := ParseIndent(line[2..]); (rest, [false] + flags)
    else if |line| >= 1 && line[0] == '\t' then
      var (rest, flags) := ParseIndent(line[1..]); (rest, [true] + flags)
    else
      (line, [])
  }

  /** The indentation is read back exactly, up to the first character that cannot start a segment. */
  lemma {:induction false} ParseIndentOfPrefix(flags: seq<bool>, rest: string)
    requires rest == [] || (rest[0] != '\t' && rest[0] != '│')
    ensures ParseIndent(Prefix(flags) + rest) == (rest, flags)
    decreases |flags|
  {
    if flags != [] {
      ParseIndentOfPrefix(flags[1..], rest);
      var tail := Prefix(flags[1..]) + rest;
      var line := Segment(flags[0]) + tail;
      assert Prefix(flags) + rest == line;
      if flags[0] {
        assert line[0] == '\t' && line[1..] == tail;
        assert ParseIndent(line) == (rest, [true] + flags[1..]);
      } else {
        assert line[0] == '│' && line[1] == '\t' && line[2..] == tail;
        assert ParseIndent(line) == (rest, [false] + flags[1..]);
      }
      assert flags == [flags[0]] + flags[1..];
    } else {
      assert Prefix(flags) + rest == rest;
    }
  }

  /**
   * Every line can be read back: its indentation gives the ancestor flags,
   * so the line shows its depth, and right after it stands the connector.
   */
  lemma RowLineIndent(r: Row)
    ensures ParseIndent(RowLine(r)) ==
      (Connector(r.isLast) + "───" + r.info.name + SizeSuffix(r.info) + "\n", r.flags)
  {
    var rest := Connector(r.isLast) + "───" + r.info.name + SizeSuffix(r.info) + "\n";
    assert RowLine(r) == Prefix(r.flags) + rest;
    ParseIndentOfPrefix(r.flags, rest);
  }

  /** `f` applied to each element, in order. */
  function Map<A, B>(f: A -> B, s: seq<A>): (r: seq<B>)
    ensures |r| == |s|
  {
    seq(|s|, i requires 0 <= i < |s| => f(s[i]))
  }

  lemma MapConcat<A, B>(f: A -> B, a: seq<A>, b: seq<A>)
    ensures Map(f, a + b) == Map(f, a) + Map(f, b)
  {
    assert forall i | 0 <= i < |a + b| :: Map(f, a + b)[i] == (Map(f, a) + Map(f, b))[i];
  }

  lemma MapSingle<A, B>(f: A -> B, x: A)
    ensures Map(f, [x]) == [f(x)]
  {
  }

  /** Each row becomes its line, in order. */
  function Render(rows: seq<Row>): (lines: seq<string>)
    ensures |lines| == |rows|
  {
    Map(RowLine, rows)
  }

  lemma RenderConcat(a: seq<Row>, b: seq<Row>)
    ensures Render(a + b) == Render(a) + Render(b)
  {
    MapConcat(RowLine, a, b);
  }

  lemma RenderSingle(r: Row)
    ensures Render([r]) == [RowLine(r)]
  {
    MapSingle(RowLine, r);
  }

  /** The concatenation of a sequence of line blocks. */
  function Flatten(chunks: seq<seq<string>>): (lines: seq<string>)
    ensures chunks == [] ==> lines == []
  {
    if chunks == [] then [] else chunks[0] + Flatten(chunks[1..])
  }

  /**
   * Writing the blocks in order, one at a time: after block `i` is appended,
   * what remains to be written is the blocks after it.
   */
  lemma WriteBlock(written: seq<string>, chunks: seq<seq<string>>, i: nat)
    requires i < |chunks|
    ensures written + Flatten(chunks[i..]) == (written + chunks[i]) + Flatten(chunks[i + 1..])
  {
    assert chunks[i..][1..] == chunks[i + 1..];
    assert Flatten(chunks[i..]) == chunks[i] + Flatten(chunks[i + 1..]);
  }
}
