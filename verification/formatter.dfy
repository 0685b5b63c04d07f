/**
 The content formatter `formatContent`: a section body is split at `\n` and
 every line, once trimmed, becomes exactly one node. The first rule that
 applies wins: blank line, `- ` bullet, line holding `**` (inline bold),
 line ending in `:` (sub-header), plain paragraph.
 */
module Formatter {
  import opened Text

  /** A piece of a paragraph, shown bold or plain. */
  datatype Run = Run(text: string, bold: bool)

  /** What one line of a section body renders as. A plain paragraph is a
      paragraph of one plain run. */
  datatype Node =
    | Blank
    | Bullet(text: string)
    | Paragraph(runs: seq<Run>)
    | SubHeader(text: string)

  const BoldDelimiter: string := "**"

  /** `line.split('**')` with the parts at odd indices bold. */
  function BoldRuns(line: string): (runs: seq<Run>)
    ensures |runs| == |SplitOn(line, BoldDelimiter)|
    ensures forall i :: 0 <= i < |runs| ==> runs[i].text == SplitOn(line, BoldDelimiter)[i]
    ensures forall i :: 0 <= i < |runs| ==> runs[i].bold == (i % 2 == 1)
  {
    var parts := SplitOn(line, BoldDelimiter);
    seq(|parts|, i requires 0 <= i < |parts| => Run(parts[i], i % 2 == 1))
  }

  function RunTexts(runs: seq<Run>): (texts: seq<string>)
    ensures |texts| == |runs|
    ensures forall i :: 0 <= i < |runs| ==> texts[i] == runs[i].text
  {
    seq(|runs|, i requires 0 <= i < |runs| => runs[i].text)
  }

  lemma BoldRunsJoin(line: string)
    ensures Join(RunTexts(BoldRuns(line)), BoldDelimiter) == line
  {
    assert RunTexts(BoldRuns(line)) == SplitOn(line, BoldDelimiter);
    SplitJoin(line, BoldDelimiter);
  }

  lemma BoldRunsWithoutDelimiter(line: string)
    ensures var runs := BoldRuns(line);
      forall i :: 0 <= i < |runs| ==> !Contains(runs[i].text, BoldDelimiter)
  {
    var parts := SplitOn(line, BoldDelimiter);
    SplitPiecesLeftmost(line, BoldDelimiter);
    LeftmostPiecesSepFree(parts, BoldDelimiter);
    forall i | 0 <= i < |parts|
      ensures !Contains(parts[i], BoldDelimiter)
    {
      assert SepFree(parts[i], BoldDelimiter);
    }
  }

  /** Splitting at `**` keeps every character: the runs, rejoined with the
      delimiter, give the line back, and no run holds a delimiter. */
  lemma BoldRunsLossless(line: string)
    ensures var runs := BoldRuns(line);
      && Join(RunTexts(runs), BoldDelimiter) == line
      && (forall i :: 0 <= i < |runs| ==> !Contains(runs[i].text, BoldDelimiter))
  {
    BoldRunsJoin(line);
    BoldRunsWithoutDelimiter(line);
  }

  /** There is one run more than there are (non-overlapping) delimiters, and
      run `i` is bold exactly when `i` is odd, so an odd number of delimiters
      leaves the last run bold. */
  lemma BoldRunsAlternate(line: string)
    ensures var runs := BoldRuns(line);
      && |runs| == CountOccurrences(line, BoldDelimiter) + 1
      && (forall i :: 0 <= i < |runs| ==> (runs[i].bold <==> i % 2 == 1))
  {
    SplitCount(line, BoldDelimiter);
  }

  /** The node for one trimmed line. */
  function FormatLine(t: string): Node
  {
    if t == "" then Blank
    else if StartsWith(t, "- ") then Bullet(t[2..])
    else if Contains(t, BoldDelimiter) then Paragraph(BoldRuns(t))
    else if EndsWith(t, ":") then SubHeader(t)
    else Paragraph([Run(t, false)])
  }

  /** The trimmed line a node was made from. */
  function LineText(n: Node): string
  {
    match n
    case Blank => ""
    case Bullet(text) => "- " + text
    case Paragraph(runs) => Join(RunTexts(runs), BoldDelimiter)
    case SubHeader(text) => text
  }

  /** Formatting a line loses nothing: the node gives the trimmed line back. */
  lemma FormatLineLossless(t: string)
    ensures LineText(FormatLine(t)) == t
  {
    if t == "" {
    } else if StartsWith(t, "- ") {
      assert t == t[..2] + t[2..];
    } else if Contains(t, BoldDelimiter) {
      BoldRunsLossless(t);
    } else if EndsWith(t, ":") {
    } else {
      assert RunTexts([Run(t, false)]) == [t];
    }
  }

  /** The rules in their order of precedence, each stated as an
      if-and-only-if on the trimmed line. */
  lemma FormatLineRules(t: string)
    ensures FormatLine(t) == Blank <==> t == ""
    ensures FormatLine(t).Bullet? <==> StartsWith(t, "- ")
    ensures FormatLine(t).Bullet? ==> t == "- " + FormatLine(t).text
    ensures FormatLine(t).SubHeader? <==>
      t != "" && !StartsWith(t, "- ") && !Contains(t, BoldDelimiter) && EndsWith(t, ":")
    ensures FormatLine(t).SubHeader? ==> FormatLine(t).text == t
    ensures FormatLine(t).Paragraph? <==>
      t != "" && !StartsWith(t, "- ") && (Contains(t, BoldDelimiter) || !EndsWith(t, ":"))
    ensures FormatLine(t).Paragraph? ==> FormatLine(t).runs == BoldRuns(t)
  {
    if t != "" && StartsWith(t, "- ") {
      assert t == t[..2] + t[2..];
    }
    if t != "" && !StartsWith(t, "- ") && !Contains(t, BoldDelimiter) {
      SplitSingleIffNoSep(t, BoldDelimiter);
      SplitSepFree(t, BoldDelimiter) by {
        forall i
          ensures !OccursAt(t, BoldDelimiter, i)
        {
          assert OccursAt(t, BoldDelimiter, i) ==> 0 <= i <= |t| - |BoldDelimiter|;
        }
      }
    }
  }

  /** `formatContent(content)`: nothing for an empty body, otherwise one node
      per `\n`-separated line. */
  function FormatContent(content: string): (nodes: seq<Node>)
    ensures content == "" ==> nodes == []
  {
    if content == "" then [] else FormatLines(SplitOn(content, "\n"))
  }

  function FormatLines(lines: seq<string>): (nodes: seq<Node>)
    ensures |nodes| == |lines|
    ensures forall k :: 0 <= k < |lines| ==> nodes[k] == FormatLine(Trim(lines[k]))
  {
    seq(|lines|, k requires 0 <= k < |lines| => FormatLine(Trim(lines[k])))
  }

  function LineTexts(nodes: seq<Node>): (texts: seq<string>)
    ensures |texts| == |nodes|
    ensures forall k :: 0 <= k < |nodes| ==> texts[k] == LineText(nodes[k])
  {
    seq(|nodes|, k requires 0 <= k < |nodes| => LineText(nodes[k]))
  }

  function TrimEach(lines: seq<string>): (trimmed: seq<string>)
    ensures |trimmed| == |lines|
    ensures forall k :: 0 <= k < |lines| ==> trimmed[k] == Trim(lines[k])
  {
    seq(|lines|, k requires 0 <= k < |lines| => Trim(lines[k]))
  }

  /** A non-empty body yields one node per line, as many as there are line
      breaks plus one, in line order; nothing is dropped or reordered, since
      the nodes give back every line, trimmed, in the original order. */
  lemma FormatContentSpec(content: string)
    requires content != ""
    ensures var nodes := FormatContent(content); var lines := SplitOn(content, "\n");
      && |nodes| == CountOccurrences(content, "\n") + 1
      && (forall k :: 0 <= k < |nodes| ==> nodes[k] == FormatLine(Trim(lines[k])))
      && Join(LineTexts(nodes), "\n") == Join(TrimEach(lines), "\n")
  {
    var lines := SplitOn(content, "\n");
    var nodes := FormatContent(content);
    SplitCount(content, "\n");
    forall k | 0 <= k < |nodes|
      ensures LineTexts(nodes)[k] == TrimEach(lines)[k]
    {
      FormatLineLossless(Trim(lines[k]));
    }
    assert LineTexts(nodes) == TrimEach(lines);
  }

  /** A body whose lines carry no surrounding whitespace is given back
      exactly by its nodes. */
  lemma FormatContentRoundTrip(content: string)
    requires content != ""
    requires forall k :: 0 <= k < |SplitOn(content, "\n")| ==>
      Trim(SplitOn(content, "\n")[k]) == SplitOn(content, "\n")[k]
    ensures Join(LineTexts(FormatContent(content)), "\n") == content
  {
    var lines := SplitOn(content, "\n");
    FormatContentSpec(content);
    assert TrimEach(lines) == lines;
    SplitJoin(content, "\n");
  }
}
