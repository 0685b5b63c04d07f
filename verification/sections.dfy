/**
 The section classifier and title extractor of `parseAndDisplayResponse`:
 each chunk of the split response is trimmed; a whitespace-only chunk is
 skipped; any other chunk becomes one section, titled when the trimmed chunk
 opens with `<digits>. **` or `**<digits>.`.
 */
module Sections {
  import opened Text
  import opened Splitter

  datatype Option<T> = None | Some(value: T)

  /** A section as the page shows it: an optional heading and the text
      handed to the content formatter. */
  datatype Section = Section(title: Option<string>, body: string)

  // `/^\d+\.\s\*\*/.test(t) || /^\*\*\d+\./.test(t)`: the split expression's
  // first and third lookaheads, anchored at the start.
  predicate IsMainSection(t: string) {
    StartsNumBold(t) || StartsBoldNum(t)
  }

  /* ---------------------------------------------------------------------- */
  /* Title cleaning: three first-match-only replacements, then trim          */
  /* ---------------------------------------------------------------------- */

  // `line.replace(/^\d+\.\s\*\*/, '')`
  function StripNumBold(line: string): (r: string)
    ensures StartsNumBold(line) ==> |r| < |line| && NumBoldMarker(line[..|line| - |r|]) && r == line[|line| - |r|..]
    ensures !StartsNumBold(line) ==> r == line
  {
    if StartsNumBold(line) then line[NumBoldLength(line)..] else line
  }

  /** `line.replace(/\*\*$/, '')`: `$` without the `m` flag is the end of
      the whole string, so only a closing `**` that is the very last thing
      on the line goes. */
  function StripClosingBold(line: string): (r: string)
    ensures EndsWith(line, "**") ==> line == r + "**"
    ensures !EndsWith(line, "**") ==> r == line
  {
    if EndsWith(line, "**") then line[..|line| - 2] else line
  }

  /** `line.replace(/^\*\*\d+\./, '')` */
  function StripBoldNum(line: string): (r: string)
    ensures StartsBoldNum(line) ==> |r| < |line| && BoldNumMarker(line[..|line| - |r|]) && r == line[|line| - |r|..]
    ensures !StartsBoldNum(line) ==> r == line
  {
    if StartsBoldNum(line) then line[BoldNumLength(line)..] else line
  }

  /** The title shown for a main section's first line. */
  function CleanTitle(line: string): string
  {
    Trim(StripBoldNum(StripClosingBold(StripNumBold(line))))
  }

  /** Removing a leading `\d+\.\s\*\*` undoes prepending one. */
  lemma StripNumBoldInverse(m: string, x: string)
    requires NumBoldMarker(m)
    ensures StripNumBold(m + x) == x
  {
    NumBoldMatches(m + x, m, x);
  }

  /** Removing a leading `\*\*\d+\.` undoes prepending one. */
  lemma StripBoldNumInverse(m: string, x: string)
    requires BoldNumMarker(m)
    ensures StripBoldNum(m + x) == x
  {
    BoldNumMatches(m + x, m, x);
  }

  /** Removing a trailing `**` undoes appending one. */
  lemma StripClosingBoldInverse(x: string)
    ensures StripClosingBold(x + "**") == x
  {
    assert (x + "**")[|x|..] == "**";
  }

  lemma NoNumBoldAfterStars(t: string)
    requires |t| > 0 && t[0] == '*'
    ensures !StartsNumBold(t)
  {
  }

  /** A `1. **Title**` line yields the trimmed text between the markers. */
  lemma TitleOfNumberedBold(m: string, x: string)
    requires NumBoldMarker(m) && !StartsBoldNum(x)
    ensures CleanTitle(m + x + "**") == Trim(x)
  {
    assert m + x + "**" == m + (x + "**");
    StripNumBoldInverse(m, x + "**");
    StripClosingBoldInverse(x);
  }

  /** A `**2. Title**` line yields the trimmed text after the number. */
  lemma TitleOfBoldNumbered(m: string, x: string)
    requires BoldNumMarker(m)
    ensures CleanTitle(m + x + "**") == Trim(x)
  {
    NoNumBoldAfterStars(m + x + "**");
    assert m + x + "**" == (m + x) + "**";
    StripClosingBoldInverse(m + x);
    StripBoldNumInverse(m, x);
  }

  lemma TitleWithoutClosingBold(m: string, y: string)
    requires NumBoldMarker(m) && !EndsWith(y, "**") && !StartsBoldNum(y)
    ensures CleanTitle(m + y) == Trim(y)
  {
    StripNumBoldInverse(m, y);
  }

  lemma TrailingSpaceHidesClosingBold(x: string, w: string)
    requires |x| > 0 && x[0] != '*'
    requires |w| > 0 && SpaceBetween(w, 0, |w|)
    ensures !EndsWith(x + "**" + w, "**") && !StartsBoldNum(x + "**" + w)
  {
    var y := x + "**" + w;
    assert y[|y| - 1] == w[|w| - 1] && y[0] == x[0];
  }

  lemma TrimBoldTextWithTrailingSpace(x: string, w: string)
    requires |x| > 0 && !IsSpace(x[0])
    requires SpaceBetween(w, 0, |w|)
    ensures Trim(x + "**" + w) == x + "**"
  {
    TrimDropsTrailingSpace(x + "**", w);
    TrimNoOuterSpace(x + "**");
  }

  /** The title line is not right-trimmed before the `\*\*$` test, so a
      closing `**` followed by spaces (or a `\r` from a CRLF line end)
      stays in the title. */
  lemma TitleKeepsClosingBoldBeforeTrailingSpace(m: string, x: string, w: string)
    requires NumBoldMarker(m)
    requires |x| > 0 && x[0] != '*' && !IsSpace(x[0])
    requires |w| > 0 && SpaceBetween(w, 0, |w|)
    ensures CleanTitle(m + x + "**" + w) == x + "**"
  {
    var y := x + "**" + w;
    assert m + x + "**" + w == m + y;
    TrailingSpaceHidesClosingBold(x, w);
    TitleWithoutClosingBold(m, y);
    TrimBoldTextWithTrailingSpace(x, w);
  }

  /* ---------------------------------------------------------------------- */
  /* Classification                                                          */
  /* ---------------------------------------------------------------------- */

  /** One chunk as the `sections.map` callback treats it (the whitespace-only
      case is filtered out by `ParseChunks` before this is reached). */
  function Classify(chunk: string): (r: Section)
    ensures r.title.Some? <==> IsMainSection(Trim(chunk))
    ensures r.title.None? ==> r.body == Trim(chunk)
  {
    var t := Trim(chunk);
    if IsMainSection(t) then
      var lines := SplitOn(t, "\n");
      Section(Some(CleanTitle(lines[0])), Trim(Join(lines[1..], "\n")))
    else
      Section(None, t)
  }

  /** A titled section takes its title from the first line and its body from
      the remaining lines, trimmed. */
  lemma ClassifyTitled(chunk: string, line: string, rest: string)
    requires Trim(chunk) == line + "\n" + rest && '\n' !in line
    requires IsMainSection(Trim(chunk))
    ensures Classify(chunk) == Section(Some(CleanTitle(line)), Trim(rest))
  {
    assert CutsLeftmost(line, "\n") by {
      forall i | 0 <= i < |line|
        ensures !OccursAt(line + "\n", "\n", i)
      {
        assert (line + "\n")[i..i + 1] == [line[i]];
      }
    }
    SplitAfterPiece(line, "\n", rest);
    var lines := SplitOn(Trim(chunk), "\n");
    assert lines[1..] == SplitOn(rest, "\n");
    SplitJoin(rest, "\n");
  }

  /** A titled section of a single line has an empty body. */
  lemma ClassifyTitledSingleLine(chunk: string)
    requires '\n' !in Trim(chunk) && IsMainSection(Trim(chunk))
    ensures Classify(chunk) == Section(Some(CleanTitle(Trim(chunk))), "")
  {
    var t := Trim(chunk);
    assert SepFree(t, "\n") by {
      forall i | 0 <= i < |t|
        ensures !OccursAt(t, "\n", i)
      {
        assert t[i..i + 1] == [t[i]];
      }
    }
    SplitSepFree(t, "\n");
    assert Trim("") == "" by {
      TrimWindowUnique("", 0, 0);
    }
  }

  /* ---------------------------------------------------------------------- */
  /* Parsing a whole response                                                */
  /* ---------------------------------------------------------------------- */

  /** `sections.map(...)` with whitespace-only chunks returning `null`. */
  function ParseChunks(chunks: seq<string>): seq<Section>
  {
    if chunks == [] then []
    else (if Trim(chunks[0]) == "" then [] else [Classify(chunks[0])]) + ParseChunks(chunks[1..])
  }

  /** The sections of a response, in the order of their chunks. */
  function Parse(response: string): seq<Section>
  {
    ParseChunks(Split(response))
  }

  /** Parsing respects chunk order: the sections of two runs of chunks are
      the sections of the first followed by those of the second. */
  lemma {:induction false} ParseChunksAppend(a: seq<string>, b: seq<string>)
    ensures ParseChunks(a + b) == ParseChunks(a) + ParseChunks(b)
    decreases |a|
  {
    if a == [] {
      assert a + b == b;
    } else {
      assert (a + b)[0] == a[0] && (a + b)[1..] == a[1..] + b;
      ParseChunksAppend(a[1..], b);
    }
  }

  /** A whitespace-only chunk yields no section; any other chunk yields
      exactly its classification. */
  lemma ParseOneChunk(c: string)
    ensures SpaceBetween(c, 0, |c|) ==> ParseChunks([c]) == []
    ensures !SpaceBetween(c, 0, |c|) ==> ParseChunks([c]) == [Classify(c)]
  {
    TrimEmptyIffAllSpace(c);
    assert [c][1..] == [];
  }

  /** Chunks none of which is blank parse into their classifications, one
      section per chunk. */
  lemma {:induction false} ParseNonBlank(chunks: seq<string>, secs: seq<Section>)
    requires |chunks| == |secs|
    requires forall k :: 0 <= k < |chunks| ==> Trim(chunks[k]) != "" && Classify(chunks[k]) == secs[k]
    ensures ParseChunks(chunks) == secs
    decreases |chunks|
  {
    if chunks != [] {
      ParseNonBlank(chunks[1..], secs[1..]);
      assert secs == [secs[0]] + secs[1..];
    }
  }

  /** A non-empty section list never holds more sections than chunks. */
  lemma {:induction false} ParseChunksLength(chunks: seq<string>)
    ensures |ParseChunks(chunks)| <= |chunks|
    decreases |chunks|
  {
    if chunks != [] {
      ParseChunksLength(chunks[1..]);
    }
  }

  /** A match of `\d+\.\s\*\*` or `\*\*\d+\.` at the front of text found at
      offset `a` of `s` is a match of the split expression at `a`. */
  lemma MainSectionIsBoundary(s: string, a: int, t: string)
    requires 0 <= a && a + |t| <= |s| && s[a..a + |t|] == t
    ensures IsMainSection(t) ==> |t| > 0 && IsBoundaryAt(s, a)
  {
    var b := a + |t|;
    assert s[a..] == t + s[b..];
    if StartsNumBold(t) {
      var k := NumBoldLength(t);
      assert t == t[..k] + t[k..];
      NumBoldMatches(s[a..], t[..k], t[k..] + s[b..]);
    }
    if StartsBoldNum(t) {
      var k := BoldNumLength(t);
      assert t == t[..k] + t[k..];
      BoldNumMatches(s[a..], t[..k], t[k..] + s[b..]);
    }
  }

  /** If the trimmed text opens a main section, a lookahead of the split
      expression matches where the trimmed text begins. */
  lemma TrimmedMainSectionIsBoundary(s: string)
    ensures var a := |s| - |TrimStart(s)|;
      IsMainSection(Trim(s)) ==> a < |s| && IsBoundaryAt(s, a)
  {
    var a := |s| - |TrimStart(s)|;
    TrimSlice(s);
    MainSectionIsBoundary(s, a, Trim(s));
  }

  /** A response in which no lookahead matches anywhere is one untitled
      section holding the trimmed response, or nothing if it is blank. */
  lemma ParseWithoutBoundary(s: string)
    requires forall i :: 0 <= i < |s| ==> !IsBoundaryAt(s, i)
    ensures SpaceBetween(s, 0, |s|) ==> Parse(s) == []
    ensures !SpaceBetween(s, 0, |s|) ==> Parse(s) == [Section(None, Trim(s))]
  {
    SplitWithoutBoundary(s);
    ParseOneChunk(s);
    TrimmedMainSectionIsBoundary(s);
  }
}
