/**
 The whole text-to-structure path of the page: the response is split into
 chunks, the chunks into sections, and every section body into nodes.
 */
module Pipeline {
  import opened Text
  import opened Splitter
  import opened Sections
  import opened Formatter

  /** A section as rendered: its heading, if any, and the formatted body. */
  datatype RenderedSection = RenderedSection(title: Option<string>, nodes: seq<Node>)

  /** `parseAndDisplayResponse(response)`: nothing for an empty response,
      otherwise one rendered section per non-blank chunk. The early return
      changes nothing, since the empty response has no sections anyway. */
  function Render(response: string): (r: seq<RenderedSection>)
    ensures |r| == |Parse(response)|
    ensures forall k :: 0 <= k < |r| ==> r[k].title == Parse(response)[k].title
  {
    if response == "" then
      ParseEmpty();
      []
    else
      var sections := Parse(response);
      seq(|sections|, k requires 0 <= k < |sections| =>
        RenderedSection(sections[k].title, FormatContent(sections[k].body)))
  }

  /** The empty response has no sections. */
  lemma ParseEmpty()
    ensures Parse("") == []
  {
    assert Split("") == [""];
    assert Trim("") == "" by {
      TrimWindowUnique("", 0, 0);
    }
  }

  /** Rendering drops no line of the response: every section keeps its
      title, an empty body renders as nothing, and the nodes of any other
      body number its line breaks plus one and give back every line of it,
      trimmed, in order. */
  lemma RenderKeepsLines(response: string)
    ensures response == "" ==> Render(response) == []
    ensures |Render(response)| == |Parse(response)|
    ensures forall k :: 0 <= k < |Parse(response)| ==> Render(response)[k].title == Parse(response)[k].title
    ensures forall k :: 0 <= k < |Parse(response)| && Parse(response)[k].body == "" ==>
      Render(response)[k].nodes == []
    ensures forall k :: 0 <= k < |Parse(response)| && Parse(response)[k].body != "" ==>
      |Render(response)[k].nodes| == CountOccurrences(Parse(response)[k].body, "\n") + 1
    ensures forall k :: 0 <= k < |Parse(response)| && Parse(response)[k].body != "" ==>
      Join(LineTexts(Render(response)[k].nodes), "\n")
        == Join(TrimEach(SplitOn(Parse(response)[k].body, "\n")), "\n")
  {
    var secs, r := Parse(response), Render(response);
    forall k | 0 <= k < |secs| && secs[k].body != ""
      ensures |r[k].nodes| == CountOccurrences(secs[k].body, "\n") + 1
      ensures Join(LineTexts(r[k].nodes), "\n") == Join(TrimEach(SplitOn(secs[k].body, "\n")), "\n")
    {
      FormatContentSpec(secs[k].body);
    }
  }

  /* ---------------------------------------------------------------------- */
  /* Responses laid out the way the page expects                             */
  /* ---------------------------------------------------------------------- */

  /** A character none of the three lookaheads can start at or need as a
      digit. */
  predicate Inert(c: char) {
    !IsDigit(c) && c != '#' && c != '*'
  }

  predicate InertText(t: string) {
    forall k :: 0 <= k < |t| ==> Inert(t[k])
  }

  /** One numbered section as a response writes it: `<digit>. **<title>**`
      on a line of its own, then the body, then a line break. */
  datatype Entry = Entry(number: char, title: string, body: string)

  /** A single-digit number, and no lookahead match anywhere in the entry's
      text after that number: the split cuts the entry nowhere inside. The
      condition is local to the entry, because an entry ends in a line break
      and no match runs across it into the next entry's digit
      (`BoundaryStopsAtLineEnd`). */
  predicate Plain(e: Entry) {
    && IsDigit(e.number)
    && forall j :: 0 < j < |EntryText(e)| ==> !IsBoundaryAt(EntryText(e), j)
  }

  /** Text that neither starts nor ends with whitespace. */
  predicate Tidy(t: string) {
    t == [] || (!IsSpace(t[0]) && !IsSpace(t[|t| - 1]))
  }

  /** Tidy text is exactly the text trimming leaves unchanged. */
  lemma TidyIffTrimmed(t: string)
    ensures Tidy(t) <==> Trim(t) == t
  {
    TrimSpec(t);
    if t != [] && Tidy(t) {
      TrimNoOuterSpace(t);
    }
    if t == [] {
      TrimWindowUnique(t, 0, 0);
    }
  }

  /** A plain entry with a one-line title, and neither title nor body with
      surrounding whitespace. */
  predicate WellFormed(e: Entry) {
    Plain(e) && '\n' !in e.title && Tidy(e.title) && Tidy(e.body)
  }

  function Heading(e: Entry): string {
    [e.number] + ". **"
  }

  function EntryText(e: Entry): string {
    Heading(e) + e.title + "**" + "\n" + e.body + "\n"
  }

  /** The response made of the entries in order. */
  function Layout(es: seq<Entry>): string {
    if es == [] then "" else EntryText(es[0]) + Layout(es[1..])
  }

  function EntryTexts(es: seq<Entry>): (ts: seq<string>)
    ensures |ts| == |es|
    ensures forall k :: 0 <= k < |es| ==> ts[k] == EntryText(es[k])
  {
    seq(|es|, k requires 0 <= k < |es| => EntryText(es[k]))
  }

  /** The sections the entries stand for. */
  function EntrySections(es: seq<Entry>): (secs: seq<Section>)
    ensures |secs| == |es|
    ensures forall k :: 0 <= k < |es| ==> secs[k] == Section(Some(es[k].title), es[k].body)
  {
    seq(|es|, k requires 0 <= k < |es| => Section(Some(es[k].title), es[k].body))
  }

  /** Inside an entry's text only the leading digit can start a match: the
      other characters are not digits or `#`, and every `*` is followed two
      places later by a non-digit. */
  lemma EntryInert(e: Entry)
    requires IsDigit(e.number) && InertText(e.title) && InertText(e.body)
    ensures var t := EntryText(e);
      forall j :: 0 < j < |t| ==>
        !IsDigit(t[j]) && t[j] != '#' && (t[j] == '*' ==> j + 2 < |t| && !IsDigit(t[j + 2]))
  {
    var t := EntryText(e);
    var x, y := e.title, e.body;
    var a := 5 + |x|;
    assert |t| == a + 4 + |y|;
    assert forall j :: 1 <= j < 5 ==> t[j] == Heading(e)[j];
    assert forall j :: 5 <= j < a ==> t[j] == x[j - 5];
    assert t[a] == '*' && t[a + 1] == '*' && t[a + 2] == '\n';
    assert forall j :: a + 3 <= j < a + 3 + |y| ==> t[j] == y[j - a - 3];
    assert t[a + 3 + |y|] == '\n';
    assert t[3] == '*' && t[4] == '*';
    assert |x| > 0 ==> Inert(t[5]);
    assert |x| > 1 ==> Inert(t[6]);
    assert |y| > 0 ==> Inert(t[a + 3]);
  }

  /** Titles and bodies free of digits, `#` and `*` make an entry plain. */
  lemma InertEntryIsPlain(e: Entry)
    requires IsDigit(e.number) && InertText(e.title) && InertText(e.body)
    ensures Plain(e)
  {
    var t := EntryText(e);
    EntryInert(e);
    forall j | 0 < j < |t|
      ensures !IsBoundaryAt(t, j)
    {
      NoBoundaryAt(t, j);
    }
  }

  /** No lookahead matches inside a plain entry, wherever it stands in the
      response, as long as what follows it does not start with `*`. */
  lemma NoBoundaryInsideEntry(s: string, p: nat, e: Entry, i: int)
    requires Plain(e) && p + |EntryText(e)| <= |s| && s[p..p + |EntryText(e)|] == EntryText(e)
    requires p + |EntryText(e)| < |s| ==> s[p + |EntryText(e)|] != '*'
    requires p < i < p + |EntryText(e)|
    ensures !IsBoundaryAt(s, i)
  {
    var t := EntryText(e);
    var j := i - p;
    var v, w := t[j..], s[p + |t|..];
    assert s[i..] == v + w;
    assert v[|v| - 1] == t[|t| - 1] == '\n';
    assert !IsBoundaryAt(t, j);
    BoundaryStopsAtLineEnd(v, w);
    assert (v + w)[0..] == s[i..] && v[0..] == t[j..];
  }

  /** An entry opens with a match of `\d+\.\s\*\*`. */
  lemma BoundaryAtEntry(s: string, p: nat, e: Entry)
    requires Plain(e) && p + |EntryText(e)| <= |s| && s[p..p + |EntryText(e)|] == EntryText(e)
    ensures IsBoundaryAt(s, p)
  {
    var t := EntryText(e);
    assert NumBoldMarker(Heading(e)) by {
      assert Heading(e)[..1] == [e.number];
    }
    assert s[p..p + 5] == t[..5] == Heading(e);
    assert s[p..] == s[p..p + 5] + s[p + 5..];
    NumBoldMatches(s[p..], Heading(e), s[p + 5..]);
  }

  lemma EntryTextsCons(es: seq<Entry>)
    requires es != []
    ensures EntryTexts(es) == [EntryText(es[0])] + EntryTexts(es[1..])
  {
  }

  /** A layout held from offset `p` holds its first entry's text there and
      the layout of the other entries after it. */
  lemma LayoutAt(s: string, p: nat, es: seq<Entry>)
    requires es != [] && p <= |s| && s[p..] == Layout(es)
    ensures var n := |EntryText(es[0])|;
      && p + n <= |s| && s[p..p + n] == EntryText(es[0]) && s[p + n..] == Layout(es[1..])
  {
    var t := EntryText(es[0]);
    assert s[p..] == t + Layout(es[1..]);
    assert s[p..p + |t|] == s[p..][..|t|];
    assert s[p + |t|..] == s[p..][|t|..];
  }

  /** A layout is tiled by its entries' texts. */
  lemma {:induction false} LayoutTiles(s: string, p: nat, es: seq<Entry>)
    requires p <= |s| && s[p..] == Layout(es)
    ensures Tiles(s, p, EntryTexts(es))
    decreases |es|
  {
    if es != [] {
      LayoutAt(s, p, es);
      LayoutTiles(s, p + |EntryText(es[0])|, es[1..]);
      EntryTextsCons(es);
    }
  }

  /** No lookahead matches inside a plain entry's text. */
  lemma NoMarksInsideEntry(s: string, p: nat, e: Entry)
    requires Plain(e) && p + |EntryText(e)| <= |s| && s[p..p + |EntryText(e)|] == EntryText(e)
    requires p + |EntryText(e)| < |s| ==> s[p + |EntryText(e)|] != '*'
    ensures forall i :: p < i < p + |EntryText(e)| ==> !BoundaryMarks(s)[i]
  {
    forall i | p < i < p + |EntryText(e)|
      ensures !BoundaryMarks(s)[i]
    {
      NoBoundaryInsideEntry(s, p, e, i);
    }
  }

  /** A plain entry followed by a tiling of plain entries: no match inside
      the entry, and a match where the next entry starts. */
  lemma EntryMarksInLayout(s: string, p: nat, e: Entry, rest: seq<Entry>)
    requires Plain(e) && p + |EntryText(e)| <= |s| && s[p..p + |EntryText(e)|] == EntryText(e)
    requires Tiles(s, p + |EntryText(e)|, EntryTexts(rest))
    requires forall k :: 0 <= k < |rest| ==> Plain(rest[k])
    ensures forall i :: p < i < p + |EntryText(e)| ==> !BoundaryMarks(s)[i]
    ensures rest != [] ==> p + |EntryText(e)| < |s| && BoundaryMarks(s)[p + |EntryText(e)|]
  {
    var end := p + |EntryText(e)|;
    if rest != [] {
      EntryTextsCons(rest);
      TilesHead(s, end, EntryText(rest[0]), EntryTexts(rest[1..]));
      BoundaryAtEntry(s, end, rest[0]);
      assert s[end] == EntryText(rest[0])[0];
    } else {
      assert end == |s|;
    }
    NoMarksInsideEntry(s, p, e);
  }

  /** In a response tiled by plain entries, the lookaheads match at the
      first character of every entry and nowhere else. */
  lemma {:induction false} LayoutMarks(s: string, p: nat, es: seq<Entry>)
    requires Tiles(s, p, EntryTexts(es))
    requires forall k :: 0 <= k < |es| ==> Plain(es[k])
    ensures MarkedAtStarts(BoundaryMarks(s), p, EntryTexts(es))
    decreases |es|
  {
    if es != [] {
      var t := EntryText(es[0]);
      var rest := EntryTexts(es[1..]);
      EntryTextsCons(es);
      TilesHead(s, p, t, rest);
      EntryMarksInLayout(s, p, es[0], es[1..]);
      LayoutMarks(s, p + |t|, es[1..]);
      MarkedAtStartsCons(BoundaryMarks(s), p, t, rest);
    }
  }

  /** Every entry's text is non-empty. */
  lemma EntryTextsNonEmpty(es: seq<Entry>)
    ensures forall k :: 0 <= k < |EntryTexts(es)| ==> EntryTexts(es)[k] != []
  {
    forall k | 0 <= k < |es|
      ensures EntryText(es[k]) != []
    {
      assert EntryText(es[k])[0] == es[k].number;
    }
  }

  /** The response splits into exactly the entries' texts. */
  lemma SplitLayout(es: seq<Entry>)
    requires es != []
    requires forall k :: 0 <= k < |es| ==> Plain(es[k])
    ensures Split(Layout(es)) == EntryTexts(es)
  {
    var s := Layout(es);
    assert s[0..] == s;
    LayoutTiles(s, 0, es);
    LayoutMarks(s, 0, es);
    EntryTextsNonEmpty(es);
    SplitTiles(s, EntryTexts(es));
  }

  /** A chunk holding one title line and two line breaks is a section with
      that title and no body. */
  lemma ClassifyTitleOnly(z: string)
    requires z != [] && !IsSpace(z[0]) && !IsSpace(z[|z| - 1]) && '\n' !in z
    requires IsMainSection(z)
    ensures Classify(z + "\n\n") == Section(Some(CleanTitle(z)), "")
  {
    TrimDropsTrailingSpace(z, "\n\n");
    TrimNoOuterSpace(z);
    ClassifyTitledSingleLine(z + "\n\n");
  }

  /** A chunk holding a title line, a body without surrounding whitespace
      and a final line break is a section with that title and body. */
  lemma ClassifyTitleAndBody(z: string, y: string)
    requires z != [] && !IsSpace(z[0]) && '\n' !in z
    requires y != [] && Tidy(y)
    requires IsMainSection(z + "\n" + y)
    ensures Classify(z + "\n" + y + "\n") == Section(Some(CleanTitle(z)), y)
  {
    var w := z + "\n" + y;
    TrimDropsTrailingSpace(w, "\n");
    TidyIffTrimmed(y);
    assert w[0] == z[0] && w[|w| - 1] == y[|y| - 1];
    TrimNoOuterSpace(w);
    ClassifyTitled(w + "\n", z, y);
  }

  /** An entry's heading line `<digit>. **<title>**` holds no line break
      and has no whitespace at its ends. */
  lemma HeadingLineChars(e: Entry)
    requires IsDigit(e.number) && '\n' !in e.title
    ensures var z := Heading(e) + e.title + "**";
      && z != [] && !IsSpace(z[0]) && !IsSpace(z[|z| - 1]) && '\n' !in z
  {
    var z := Heading(e) + e.title + "**";
    assert z == ([e.number] + ". **") + e.title + "**";
    assert z[0] == e.number && z[|z| - 1] == '*';
  }

  /** An entry's heading is a whole match of `\d+\.\s\*\*`. */
  lemma HeadingIsMarker(e: Entry)
    requires IsDigit(e.number)
    ensures NumBoldMarker(Heading(e))
  {
    assert Heading(e)[..1] == [e.number];
  }

  /** A title opening with `**<digits>.` is a match inside its entry. */
  lemma BoldNumTitleIsBoundary(e: Entry)
    ensures StartsBoldNum(e.title) ==> 5 < |EntryText(e)| && IsBoundaryAt(EntryText(e), 5)
  {
    var x, t := e.title, EntryText(e);
    var rest := "**" + "\n" + e.body + "\n";
    assert t[5..] == x + rest;
    if StartsBoldNum(x) {
      var k := BoldNumLength(x);
      assert x + rest == x[..k] + (x[k..] + rest);
      BoldNumMatches(t[5..], x[..k], x[k..] + rest);
    }
  }

  /** An entry's heading line, the title between `<digit>. **` and `**`,
      cleans to the title. */
  lemma EntryTitleLine(e: Entry)
    requires WellFormed(e)
    ensures CleanTitle(Heading(e) + e.title + "**") == e.title
  {
    var x := e.title;
    HeadingIsMarker(e);
    BoldNumTitleIsBoundary(e);
    TitleOfNumberedBold(Heading(e), x);
    TidyIffTrimmed(x);
  }

  /** An entry's text as its heading line, a line break, the body and a
      final line break. */
  lemma EntryTextLines(e: Entry)
    ensures var m, z := Heading(e), Heading(e) + e.title + "**";
      && EntryText(e) == z + "\n" + e.body + "\n"
      && z == m + (e.title + "**")
      && z + "\n" + e.body == m + (e.title + "**" + "\n" + e.body)
      && (e.body == "" ==> EntryText(e) == z + "\n\n")
  {
  }

  /** An entry's chunk is never blank: it starts with the entry's digit. */
  lemma EntryNotBlank(e: Entry)
    requires IsDigit(e.number)
    ensures Trim(EntryText(e)) != ""
  {
    TrimEmptyIffAllSpace(EntryText(e));
    assert EntryText(e)[0] == e.number;
  }

  /** An entry's heading line opens a main section, with or without the
      body after it. */
  lemma EntryOpensMainSection(e: Entry)
    requires IsDigit(e.number)
    ensures var z := Heading(e) + e.title + "**";
      IsMainSection(z) && IsMainSection(z + "\n" + e.body)
  {
    var m, x, y := Heading(e), e.title, e.body;
    HeadingIsMarker(e);
    EntryTextLines(e);
    NumBoldMatches(m + x + "**", m, x + "**");
    NumBoldMatches(m + x + "**" + "\n" + y, m, x + "**" + "\n" + y);
  }

  lemma ClassifyEntryWithoutBody(e: Entry)
    requires var z := Heading(e) + e.title + "**";
      && z != [] && !IsSpace(z[0]) && !IsSpace(z[|z| - 1]) && '\n' !in z
      && IsMainSection(z) && CleanTitle(z) == e.title
    requires e.body == ""
    ensures Classify(EntryText(e)) == Section(Some(e.title), e.body)
  {
    EntryTextLines(e);
    ClassifyTitleOnly(Heading(e) + e.title + "**");
  }

  lemma ClassifyEntryWithBody(e: Entry)
    requires var z := Heading(e) + e.title + "**";
      && z != [] && !IsSpace(z[0]) && '\n' !in z
      && IsMainSection(z + "\n" + e.body) && CleanTitle(z) == e.title
    requires e.body != "" && Tidy(e.body)
    ensures Classify(EntryText(e)) == Section(Some(e.title), e.body)
  {
    EntryTextLines(e);
    ClassifyTitleAndBody(Heading(e) + e.title + "**", e.body);
  }

  /** An entry's chunk opens a main section titled with the entry's title,
      and its body is the entry's body. */
  lemma ClassifyEntry(e: Entry)
    requires WellFormed(e)
    ensures Trim(EntryText(e)) != ""
    ensures Classify(EntryText(e)) == Section(Some(e.title), e.body)
  {
    EntryNotBlank(e);
    HeadingLineChars(e);
    EntryTitleLine(e);
    EntryOpensMainSection(e);
    if e.body == "" {
      ClassifyEntryWithoutBody(e);
    } else {
      ClassifyEntryWithBody(e);
    }
  }

  /** The entries' chunks parse into the entries' sections, one each. */
  lemma ParseEntries(es: seq<Entry>)
    requires forall k :: 0 <= k < |es| ==> WellFormed(es[k])
    ensures ParseChunks(EntryTexts(es)) == EntrySections(es)
  {
    var cs, secs := EntryTexts(es), EntrySections(es);
    forall k | 0 <= k < |cs|
      ensures Trim(cs[k]) != "" && Classify(cs[k]) == secs[k]
    {
      ClassifyEntry(es[k]);
    }
    ParseNonBlank(cs, secs);
  }

  /** A response laid out from well-formed entries parses back into exactly
      those entries: one titled section per entry, in order, each with the
      entry's title and body. */
  lemma ParseLayout(es: seq<Entry>)
    requires forall k :: 0 <= k < |es| ==> WellFormed(es[k])
    ensures Parse(Layout(es)) == EntrySections(es)
  {
    if es == [] {
      ParseEmpty();
    } else {
      SplitLayout(es);
      ParseEntries(es);
    }
  }

  /** The page shows a laid-out response as one titled block per entry,
      holding the entry's title and its formatted body. */
  lemma RenderLayout(es: seq<Entry>)
    requires es != []
    requires forall k :: 0 <= k < |es| ==> WellFormed(es[k])
    ensures |Render(Layout(es))| == |es|
    ensures forall k :: 0 <= k < |es| ==>
      Render(Layout(es))[k] == RenderedSection(Some(es[k].title), FormatContent(es[k].body))
  {
    ParseLayout(es);
    assert Layout(es) != "" by {
      assert |Layout(es)| >= |EntryText(es[0])|;
    }
  }

  lemma LayoutOfTwo(e1: Entry, e2: Entry)
    ensures Layout([e1, e2]) == EntryText(e1) + EntryText(e2)
  {
    assert [e1, e2][1..] == [e2] && [e2][1..] == [];
    assert Layout([e2]) == EntryText(e2) + "";
  }

  /** Text made of letters and inner spaces. */
  predicate Words(w: string) {
    && w != [] && w[0] != ' ' && w[|w| - 1] != ' '
    && forall k :: 0 <= k < |w| ==> 'A' <= w[k] <= 'Z' || 'a' <= w[k] <= 'z' || w[k] == ' '
  }

  /** An entry whose title and body are plain words is well formed. */
  lemma WordsEntryWellFormed(e: Entry)
    requires IsDigit(e.number) && Words(e.title) && Words(e.body)
    ensures WellFormed(e)
  {
    InertEntryIsPlain(e);
  }

  lemma CoverLetterText(e: Entry)
    requires e == Entry('1', "Cover Letter", "Body text")
    ensures EntryText(e) == "1. **Cover Letter**\nBody text\n"
  {
  }

  lemma ResumeText(e: Entry)
    requires e == Entry('2', "Resume", "More text")
    ensures EntryText(e) == "2. **Resume**\nMore text\n"
  {
  }

  /** Two numbered sections, each title on its own line and its body on the
      next: two titled sections with those titles and bodies.

      The response and the two entries are parameters pinned to literals,
      not literals or locals in the proof: a literal argument lets the
      verifier unfold `Parse`, `Layout` and `EntryText` on it without bound,
      which exhausts its resources. */
  lemma CoverLetterAndResume(response: string, e1: Entry, e2: Entry)
    requires response == "1. **Cover Letter**\nBody text\n" + "2. **Resume**\nMore text\n"
    requires e1 == Entry('1', "Cover Letter", "Body text") && e2 == Entry('2', "Resume", "More text")
    ensures Parse(response)
      == [Section(Some("Cover Letter"), "Body text"), Section(Some("Resume"), "More text")]
  {
    WordsEntryWellFormed(e1);
    WordsEntryWellFormed(e2);
    CoverLetterText(e1);
    ResumeText(e2);
    LayoutOfTwo(e1, e2);
    ParseLayout([e1, e2]);
    assert Parse(response) == EntrySections([e1, e2]);
  }
}
