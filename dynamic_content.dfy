/**
 * The DynamicContent component: a text shown line by line with a line
 * number in front of each line, under a header giving the number of lines
 * and the number of characters.
 */
module DynamicContent {
  import opened Text

  predicate IsNewline(c: char) { c == '\n' }

  /** A character outside the Basic Multilingual Plane: a surrogate pair in UTF-16. */
  predicate IsAstral(c: char) { c > '\U{FFFF}' }

  /** `content.split('\n')`: the displayed lines, in order. */
  function Lines(content: string): (lines: seq<string>)
    ensures |lines| == CountWhere(content, IsNewline) + 1
    ensures forall k :: 0 <= k < |lines| ==> NoneWhere(lines[k], IsNewline)
    ensures Join(lines, "\n") == content
  {
    JoinSplit(content, IsNewline, '\n');
    SplitWhere(content, IsNewline)
  }

  /** The "Lines:" figure of the header. */
  function LineCount(content: string): (n: nat)
    ensures n == CountWhere(content, IsNewline) + 1
    ensures content == "" ==> n == 1
  {
    |Lines(content)|
  }

  /**
   * The "Characters:" figure of the header. JavaScript's `length` counts
   * UTF-16 code units, so a character outside the Basic Multilingual Plane
   * counts twice.
   */
  function CharCount(content: string): (n: nat)
    ensures n == |content| + CountWhere(content, IsAstral)
    ensures n >= |content|
    ensures (forall k :: 0 <= k < |content| ==> content[k] <= '\U{FFFF}') ==> n == |content|
  {
    if content == [] then 0
    else (if content[0] <= '\U{FFFF}' then 1 else 2) + CharCount(content[1..])
  }

  datatype NumberedLine = NumberedLine(number: nat, text: string)

  /** The body: each line with its 1-based number. */
  function NumberedLines(content: string): (rows: seq<NumberedLine>)
    ensures |rows| == LineCount(content)
    ensures forall k :: 0 <= k < |rows| ==> rows[k].number == k + 1 && rows[k].text == Lines(content)[k]
  {
    var lines := Lines(content);
    seq(|lines|, k requires 0 <= k < |lines| => NumberedLine(k + 1, lines[k]))
  }

  /** The line texts of the displayed rows. */
  function Texts(rows: seq<NumberedLine>): seq<string> {
    seq(|rows|, k requires 0 <= k < |rows| => rows[k].text)
  }

  /** The displayed texts, joined with newlines, are the content. */
  lemma NumberedLinesRestoreContent(content: string)
    ensures Join(Texts(NumberedLines(content)), "\n") == content
  {
    assert Texts(NumberedLines(content)) == Lines(content);
  }

  /** Lines with no newline in them, joined and split again, come back unchanged. */
  lemma LinesOfJoin(lines: seq<string>)
    requires |lines| >= 1
    requires forall k :: 0 <= k < |lines| ==> NoneWhere(lines[k], IsNewline)
    ensures Lines(Join(lines, "\n")) == lines
  {
    SplitJoin(lines, IsNewline, '\n');
  }

  /** Examples: empty content is one empty line; a trailing newline gives an empty last line. */
  lemma LinesExamples()
    ensures Lines("") == [""]
    ensures Lines("a\nb\n") == ["a", "b", ""]
    ensures LineCount("a\nb\n") == 3
  {
    assert SplitWhere("", IsNewline) == [""];
    var lines := ["a", "b", ""];
    assert Join(lines, "\n") == "a\nb\n" by {
      assert lines[1..] == ["b", ""] && lines[1..][1..] == [""];
    }
    LinesOfJoin(lines);
  }
}
