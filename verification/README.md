# AI Resume Builder: response parsing and PDF pagination in Dafny

The page `src/pages/Home.jsx` turns the text a language model returns into
a structured view, and then exports that view as a PDF. This project models
the part of that path that is pure logic and proves properties of it.

- **Splitting.** The response is cut into chunks by a regular expression made
  of three zero-width lookaheads: `\d+\.\s\*\*`, `##\s` and `\*\*\d+\.`.
- **Sections.** Every chunk that is not blank becomes a section. A chunk whose
  trimmed text starts with a numbered-bold marker is a *main section*. Its
  title comes from its first line, with the markers removed, and its body
  from the remaining lines. Any other chunk is an untitled section holding
  the trimmed chunk.
- **Formatting.** A section body is cut at line breaks. Every trimmed line
  becomes one node: a blank line, a `- ` bullet, a paragraph split at `**`
  into alternating plain and bold runs, a sub-header ending in `:`, or a
  plain paragraph.
- **Pagination.** The PDF export's fallback rasterises the view into one
  image. It draws the whole image once per page, into a box `pageWidth - 40`
  wide and `min(remaining, pageHeight - 40)` tall, and adds pages while
  image height remains.
- **Export outcome.** The export tries the vector renderer first, then the
  raster fallback, and alerts the user only when both fail.

Modules, in dependency order:

| file | module | contents |
|---|---|---|
| `text.dfy` | `Text` | whitespace, `trim`, `startsWith`/`endsWith`/`includes`, `split`/`join` on a literal separator |
| `splitter.dfy` | `Splitter` | the three lookaheads and JavaScript's `split` with a zero-width pattern, as a function and as a loop |
| `sections.dfy` | `Sections` | main-section test, title cleaning, chunk classification, the section list |
| `formatter.dfy` | `Formatter` | `formatContent`: one node per line, bold runs |
| `pipeline.dfy` | `Pipeline` | the whole path, and a round trip for responses laid out as numbered entries |
| `export.dfy` | `Export` | the fallback placement loop over exact reals, and the export outcome |

Two facts are the headline results:

- `Pipeline.ParseLayout`: a response written as numbered entries
  (`<digit>. **<title>**`, a line break, the body, a line break) parses back
  into exactly those entries' titles and bodies, as long as no lookahead
  matches inside an entry after its first character.
- `Export.FallbackPlacements`: with `slice = pageHeight - 40`, the
  placement loop draws `ceil(h / slice)` boxes, all a full page's room
  except the last, and the box heights sum to the image height. Each box
  holds the whole image scaled to fit, not a slice of it (see
  "## Findings").

## Model

| member | source | states |
|---|---|---|
| Text.TrimStartSpec | src/pages/Home.jsx:68 | `trimStart` keeps a suffix, drops only whitespace before it, and the suffix does not start with whitespace |
| Text.TrimEndSpec | src/pages/Home.jsx:68 | `trimEnd` keeps a prefix, drops only whitespace after it, and the prefix does not end with whitespace |
| Text.TrimSpec | src/pages/Home.jsx:68 | `trim` keeps exactly the window between the leading and the trailing whitespace |
| Text.TrimWindowUnique | src/pages/Home.jsx:68 | any window with whitespace outside it and non-whitespace at its ends is what `trim` returns |
| Text.TrimEmptyIffAllSpace | src/pages/Home.jsx:68 | `trim` gives the empty string exactly when the input is all whitespace, which is the blank-chunk and blank-line test |
| Text.TrimIdempotent | src/pages/Home.jsx:105 | trimming twice is trimming once |
| Text.TrimDropsTrailingSpace | src/pages/Home.jsx:77 | trailing whitespace never changes what `trim` keeps |
| Text.SplitJoin | src/pages/Home.jsx:73-75 | `split` on a literal separator loses nothing: joining the pieces with the separator gives the input back |
| Text.JoinSplit | src/pages/Home.jsx:73-75 | on pieces of the shape `split` produces, `split` undoes `join` |
| Text.SplitPiecesLeftmost | src/pages/Home.jsx:117 | `split` cuts at the leftmost separator each time, and its last piece holds none |
| Text.LeftmostPiecesSepFree | src/pages/Home.jsx:117 | no piece of that shape holds the separator |
| Text.SplitAfterPiece | src/pages/Home.jsx:117 | `p + sep + t` is cut right after `p` when no separator starts inside `p` |
| Text.SplitSepFree | src/pages/Home.jsx:104 | text without the separator is one piece |
| Text.SplitCount | src/pages/Home.jsx:104 | there is one piece more than there are non-overlapping separators |
| Text.SplitSingleIffNoSep | src/pages/Home.jsx:116-117 | the text is one piece exactly when it does not contain the separator |
| Splitter.NumBoldMatches | src/pages/Home.jsx:64 | a whole `\d+\.\s\*\*` match at the front is recognised, and its length is the marker's |
| Splitter.BoldNumMatches | src/pages/Home.jsx:64 | the same for `\*\*\d+\.` |
| Splitter.HeadingMatches | src/pages/Home.jsx:64 | `##\s` matches exactly when the first three characters are `##` and whitespace |
| Splitter.BoundaryFirstChar | src/pages/Home.jsx:64 | a lookahead can only match at a digit, `#` or `*` |
| Splitter.NoBoundaryAt | src/pages/Home.jsx:64 | no lookahead matches at a character that is not a digit or `#`, nor at a `*` not followed two places later by a digit |
| Splitter.ChunksConcat | src/pages/Home.jsx:64 | the chunks concatenate back to the text, and none of a non-empty text's chunks is empty |
| Splitter.ChunksCuts | src/pages/Home.jsx:64 | every chunk after the first starts at a marked position, and every marked position starts a chunk |
| Splitter.SplitSpec | src/pages/Home.jsx:64 | `split` is lossless and never yields an empty chunk from a non-empty response; the chunks after the first start exactly at the indices above 0 where a lookahead matches |
| Splitter.SplitTiles | src/pages/Home.jsx:64 | conversely, text made of non-empty pieces, with matches exactly at the pieces' starts, splits into those pieces |
| Splitter.SplitWithoutBoundary | src/pages/Home.jsx:64 | text with no match after index 0 is one chunk |
| Splitter.SplitAtMarks | src/pages/Home.jsx:64 | a single left-to-right loop cutting in front of every marked position yields the recursive definition's chunks |
| Splitter.BoundaryStopsAtLineEnd | src/pages/Home.jsx:64 | no lookahead match runs across a line break into text that does not start with `*`: a match at the front of `v + w`, with `v` ending in a line break, is a match at the front of `v` |
| Splitter.SplitByLookahead | src/pages/Home.jsx:64 | that loop, run on the response's matches, computes the response's chunks |
| Sections.StripNumBold | src/pages/Home.jsx:77 | `replace(/^\d+\.\s\*\*/, '')` removes a leading marker exactly when there is one, and nothing else |
| Sections.StripClosingBold | src/pages/Home.jsx:77 | `replace(/\*\*$/, '')` removes `**` only when it is the very end of the line |
| Sections.StripBoldNum | src/pages/Home.jsx:77 | `replace(/^\*\*\d+\./, '')` removes a leading marker exactly when there is one |
| Sections.StripNumBoldInverse | src/pages/Home.jsx:77 | removing the `\d+\.\s\*\*` marker undoes prepending it |
| Sections.StripBoldNumInverse | src/pages/Home.jsx:77 | removing the `\*\*\d+\.` marker undoes prepending it |
| Sections.StripClosingBoldInverse | src/pages/Home.jsx:77 | removing the closing `**` undoes appending it |
| Sections.TitleOfNumberedBold | src/pages/Home.jsx:77 | `1. **Title**` yields the trimmed title |
| Sections.TitleOfBoldNumbered | src/pages/Home.jsx:77 | `**2. Title**` yields the trimmed title |
| Sections.TitleKeepsClosingBoldBeforeTrailingSpace | src/pages/Home.jsx:73-77 | a closing `**` followed by whitespace on the title line, such as a `\r`, stays in the title, because the line is not trimmed before the `\*\*$` test |
| Sections.Classify | src/pages/Home.jsx:70-77 | a chunk has a title exactly when its trimmed text starts with `\d+\.\s\*\*` or `\*\*\d+\.`; an untitled chunk's body is the trimmed chunk |
| Sections.ClassifyTitled | src/pages/Home.jsx:73-77 | a main section's title is its cleaned first line, and its body is the remaining lines, trimmed |
| Sections.ClassifyTitledSingleLine | src/pages/Home.jsx:73-77 | a one-line main section has an empty body |
| Sections.ParseOneChunk | src/pages/Home.jsx:67-68 | a whitespace-only chunk yields no section, and any other chunk yields exactly its classification |
| Sections.ParseChunksAppend | src/pages/Home.jsx:67 | sections come in chunk order: parsing two runs of chunks gives the first run's sections, then the second's |
| Sections.ParseNonBlank | src/pages/Home.jsx:67-68 | non-blank chunks give one section each, in order |
| Sections.ParseChunksLength | src/pages/Home.jsx:67-68 | never more sections than chunks |
| Sections.MainSectionIsBoundary | src/pages/Home.jsx:64-70 | where a main section's marker stands, a lookahead of the split matches |
| Sections.TrimmedMainSectionIsBoundary | src/pages/Home.jsx:64-70 | if a chunk's trimmed text opens a main section, a lookahead matches where that trimmed text begins |
| Sections.ParseWithoutBoundary | src/pages/Home.jsx:64-91 | a response without any match is nothing when blank, and otherwise one untitled section holding the trimmed response |
| Formatter.BoldRunsLossless | src/pages/Home.jsx:116-121 | the runs, joined with `**`, give the line back, and no run holds `**` |
| Formatter.BoldRunsAlternate | src/pages/Home.jsx:116-121 | one run more than there are non-overlapping `**`, with bold on the odd runs, so an odd count leaves the last run bold |
| Formatter.FormatLineRules | src/pages/Home.jsx:105-131 | the node for a trimmed line, rule by rule as an if-and-only-if in order of precedence: blank, `- ` bullet minus its two prefix characters, bold paragraph, `:` sub-header holding the whole line, plain paragraph |
| Formatter.FormatLineLossless | src/pages/Home.jsx:105-131 | the node gives back the trimmed line it was made from |
| Formatter.FormatContent | src/pages/Home.jsx:102-103 | an empty body formats to nothing |
| Formatter.FormatContentSpec | src/pages/Home.jsx:102-133 | a non-empty body gives one node per line, as many as there are line breaks plus one, in order; the nodes give back every trimmed line |
| Formatter.FormatContentRoundTrip | src/pages/Home.jsx:102-133 | a body whose lines have no surrounding whitespace is given back exactly by its nodes |
| Pipeline.TidyIffTrimmed | src/pages/Home.jsx:68 | text without whitespace at either end is exactly the text `trim` leaves unchanged |
| Pipeline.Render | src/pages/Home.jsx:61-99 | the page shows one block per section of the response, in order, each under its section's title |
| Pipeline.RenderKeepsLines | src/pages/Home.jsx:61-133 | rendering drops no line: the empty response renders as nothing, every block keeps its section's title, an empty body gives no nodes, and any other body gives one node per line that together give back every line, trimmed, in order |
| Pipeline.InertEntryIsPlain | src/pages/Home.jsx:64 | an entry whose title and body hold no digit, `#` or `*` contains no lookahead match after its first character |
| Pipeline.SplitLayout | src/pages/Home.jsx:64 | a response written as numbered entries, each with a single-digit number and no lookahead match after its first character, splits into exactly the entries' texts |
| Pipeline.ClassifyEntry | src/pages/Home.jsx:68-77 | such an entry with a one-line title and title and body free of surrounding whitespace is not blank, and it classifies as a main section with the entry's title and body |
| Pipeline.ParseLayout | src/pages/Home.jsx:64-95 | a response written as such entries parses back into exactly those entries' titles and bodies, in order |
| Pipeline.RenderLayout | src/pages/Home.jsx:61-99 | a non-empty response written as such entries renders as one titled block per entry, holding its title and formatted body |
| Pipeline.CoverLetterAndResume | src/pages/Home.jsx:64-77 | `1. **Cover Letter**`, `Body text`, `2. **Resume**`, `More text` on four lines give the sections `Cover Letter`/`Body text` and `Resume`/`More text` |
| Export.Ceil | src/pages/Home.jsx:32-39 | the smallest integer not below its argument |
| Export.SliceHeightsSpec | src/pages/Home.jsx:32-39 | the box heights for a positive image height number `ceil(height / slice)`, are a full page's room except the last, and sum to the height; a non-positive height has none |
| Export.FallbackPlacements | src/pages/Home.jsx:25-39 | the whole image is drawn once per page at (20, 20), into a box page width minus 40 wide and as tall as the height still to place, capped at page height minus 40; there are `ceil(h / slice)` draws and one page fewer is added; the heights sum to the image height; nothing is drawn for a non-positive height |
| Export.A4Example | src/pages/Home.jsx:25-39 | a 595 by 842 point page (A4 rounded to whole points) and a 1000 by 3000 canvas give a 555 by 1665 image, drawn three times, into boxes 802, 802 and 61 tall |
| Export.WholeImageOnEveryPage | src/pages/Home.jsx:30-37 | as written, every page shows the whole image scaled into its box at the top margin: every row of the image lands in the content area of every page |
| Export.RowRepeatsAcrossPages | src/pages/Home.jsx:30-37 | as written, an image taller than a page's room is drawn at least twice, and each of its rows lands in the content area of the first two pages alike |
| Export.IntendedPlacements | src/pages/Home.jsx:25-39 | the corrected loop draws as many boxes as the loop as written, each the whole image at its own height, page `k` with its top edge at `20 - k * slice` |
| Export.IntendedRowOnOnePage | src/pages/Home.jsx:25-39 | with the corrected placements every row `r` of the image lands in the content area of exactly one page, page `floor(r / slice)`, and that page is drawn |
| Export.ExportOutcome | src/pages/Home.jsx:5-44 | no element means nothing happens; otherwise the vector renderer's success saves `AI_Resume.pdf` by the vector path; its failure followed by the fallback's success saves by the raster path; an alert comes only when both fail |

## Findings

| source | as written | input that shows it | evidently intended | confidence | as-written member | corrected member |
|---|---|---|---|---|---|---|
| src/pages/Home.jsx:30-37 | every page calls `addImage` with the whole image at `position = 20` and a box `min(remaining, pageHeight - 40)` tall, so each page shows the whole image squeezed into its box | a 595 by 842 point page and a 1000 by 3000 canvas: the 1665 point image is drawn three times, squeezed into boxes 802, 802 and 61 tall, and its top row is on all three pages | each page draws the image at its own height, shifted up by the room of the earlier pages (`position = 20 - k * (pageHeight - 40)`), so each page shows the next slice | high, not executed | Export.WholeImageOnEveryPage, Export.RowRepeatsAcrossPages | Export.IntendedPlacements, Export.IntendedRowOnOnePage |

## Left out

- JSX and React: elements, keys and `useState` are presentation. Sections
  and nodes are datatypes instead (src/pages/Home.jsx:78-95, 109-131).
- The model request: the prompt, `fetch` and the response-shape checks are
  network I/O (src/pages/Home.jsx:135-192).
- The form, header and footer are UI (src/pages/Home.jsx:194-358).
- `jsPDF.html`, `html2canvas`, `toDataURL`, `addImage`, `addPage`, `save` and
  `alert` are foreign library and DOM calls. Their success is an input of
  `Export.ExportOutcome`. Their effect is the list of placements
  `Export.FallbackPlacements` returns.
- Floating point: the pagination uses exact reals, not IEEE-754 doubles. A
  zero canvas width, which gives `Infinity` or `NaN` in the browser, is
  excluded by a precondition. So is a page no taller than its margins, for
  which the loop never ends.
- Export.IntendedRowOnOnePage: only the content area between the margins
  is claimed. `addImage` does not clip, so with the corrected placements
  the rows just above and below a page's slice are also drawn into its
  margins.
- Export.FallbackPlacements: only the placements are modelled; how jsPDF
  rasterises a scaled image is not.
- Concurrent clicks on the download button are not modelled.
- Characters are Unicode scalar values, not UTF-16 code units. None of the
  characters the code tests for is a surrogate.
- `Text.IsSpace` follows the ECMAScript whitespace and line-terminator set
  for one Unicode version. Engines follow their own Unicode version.
- `Pipeline.Render` takes a string. A `null` or `undefined` response, which
  the `!response` test also rejects, has no counterpart.
- Line anchoring: the lookaheads are not anchored to line starts, so a cut
  can fall mid-line, and `12. **X**` is cut between `1` and `2`.
- Pipeline.ParseLayout: the round trip is stated for entries with a
  single-digit number, a one-line title, a title and body without
  surrounding whitespace, and no lookahead match after the entry's first
  character. A match inside an entry opens another chunk there, so the
  entry does not come back whole; a multi-digit number is always such a
  case, because the lookahead matches again at its second digit. Digits,
  `#` and `*` are allowed where they do not start a match, such as bold
  text or `2024` in a body (`Pipeline.InertEntryIsPlain` gives one
  sufficient condition).
- Pipeline.SplitLayout: stated only for entries with a single-digit number
  and no lookahead match after the entry's first character, for the same
  reason.
- Pipeline.ClassifyEntry: stated only for such entries that also have a
  one-line title and a title and body without surrounding whitespace;
  `trim` would change any other title or body.
- Pipeline.RenderLayout: stated under the same conditions as
  `Pipeline.ParseLayout`, and for a non-empty list of entries; the empty
  response is covered by `Pipeline.RenderKeepsLines`.
- Pipeline.CoverLetterAndResume: the response ends with a line break after
  `More text`. Without it the result is the same, because the last chunk is
  trimmed, but that variant is not proved.
