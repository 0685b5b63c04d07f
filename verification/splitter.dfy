/**
 The section splitter: `response.split(/(?=\d+\.\s\*\*)|(?=##\s)|(?=\*\*\d+\.)/)`.

 The regular expression is three zero-width lookaheads, so a match consumes
 nothing and `split` cuts the text in front of every position where one of the
 three patterns starts. The lookaheads are not anchored to line starts, so a cut
 can fall in the middle of a line; and because `\d+` may start at any digit of a
 number, `12. **X**` is cut between `1` and `2`.
 */
module Splitter {
  import opened Text

  /* ---------------------------------------------------------------------- */
  /* The three lookaheads                                                    */
  /* ---------------------------------------------------------------------- */

  /** `\d+\.\s\*\*` matches at the front of `t`. The digit run must be the
      maximal one, since the character after it has to be `.`. */
  predicate StartsNumBold(t: string) {
    var n := LeadingDigits(t);
    && n > 0 && n + 4 <= |t|
    && t[n] == '.' && IsSpace(t[n + 1]) && t[n + 2] == '*' && t[n + 3] == '*'
  }

  /** `##\s` matches at the front of `t`. */
  predicate StartsHeading(t: string) {
    |t| >= 3 && t[0] == '#' && t[1] == '#' && IsSpace(t[2])
  }

  /** `\*\*\d+\.` matches at the front of `t`. */
  predicate StartsBoldNum(t: string) {
    && |t| >= 2 && t[0] == '*' && t[1] == '*'
    && var n := LeadingDigits(t[2..]);
       n > 0 && n + 2 < |t| && t[n + 2] == '.'
  }

  /** One of the three lookaheads of the split expression matches at `i`. */
  predicate IsBoundaryAt(s: string, i: int)
    requires 0 <= i <= |s|
  {
    StartsNumBold(s[i..]) || StartsHeading(s[i..]) || StartsBoldNum(s[i..])
  }

  /* Exact matches of the three patterns, written the way the regular
     expressions read: an independent description of what each lookahead
     accepts. */

  /** `m` is a whole match of `\d+\.\s\*\*`. */
  predicate NumBoldMarker(m: string) {
    && |m| >= 5 && AllDigits(m[..|m| - 4])
    && m[|m| - 4] == '.' && IsSpace(m[|m| - 3]) && m[|m| - 2] == '*' && m[|m| - 1] == '*'
  }

  /** `m` is a whole match of `##\s`. */
  predicate HeadingMarker(m: string) {
    |m| == 3 && m[0] == '#' && m[1] == '#' && IsSpace(m[2])
  }

  /** `m` is a whole match of `\*\*\d+\.`. */
  predicate BoldNumMarker(m: string) {
    && |m| >= 4 && m[0] == '*' && m[1] == '*'
    && AllDigits(m[2..|m| - 1]) && m[|m| - 1] == '.'
  }

  /** The length of the `\d+\.\s\*\*` match at the front of `t`. */
  function NumBoldLength(t: string): (k: nat)
    requires StartsNumBold(t)
    ensures k <= |t| && NumBoldMarker(t[..k])
  {
    var n := LeadingDigits(t);
    assert t[..n + 4][..n] == t[..n];
    n + 4
  }

  /** The length of the `\*\*\d+\.` match at the front of `t`. */
  function BoldNumLength(t: string): (k: nat)
    requires StartsBoldNum(t)
    ensures k <= |t| && BoldNumMarker(t[..k])
  {
    var n := LeadingDigits(t[2..]);
    assert t[..n + 3][2..n + 2] == t[2..][..n];
    n + 3
  }

  /** `StartsNumBold` accepts exactly the strings that begin with a whole
      match of `\d+\.\s\*\*`, and that match is unique. */
  lemma NumBoldMatches(t: string, m: string, x: string)
    requires t == m + x
    ensures NumBoldMarker(m) ==> StartsNumBold(t) && NumBoldLength(t) == |m|
  {
    if NumBoldMarker(m) {
      var k := |m| - 4;
      assert t[..k] == m[..k];
      LeadingDigitsExact(t, k);
    }
  }

  /** `StartsBoldNum` accepts exactly the strings that begin with a whole
      match of `\*\*\d+\.`, and that match is unique. */
  lemma BoldNumMatches(t: string, m: string, x: string)
    requires t == m + x
    ensures BoldNumMarker(m) ==> StartsBoldNum(t) && BoldNumLength(t) == |m|
  {
    if BoldNumMarker(m) {
      var k := |m| - 3;
      assert t[2..][..k] == m[2..|m| - 1];
      LeadingDigitsExact(t[2..], k);
    }
  }

  /** `StartsHeading` accepts exactly the strings that begin with a match of `##\s`. */
  lemma HeadingMatches(t: string)
    ensures StartsHeading(t) <==> |t| >= 3 && HeadingMarker(t[..3])
  {
  }

  /** Only a digit, `#` or `*` can start a boundary. */
  lemma BoundaryFirstChar(s: string, i: int)
    requires 0 <= i <= |s| && IsBoundaryAt(s, i)
    ensures i < |s| && (IsDigit(s[i]) || s[i] == '#' || s[i] == '*')
  {
  }

  /** No lookahead matches at a character other than a digit or `#`, unless
      it is a `*` two places before a digit. */
  lemma NoBoundaryAt(s: string, i: int)
    requires 0 <= i < |s| && !IsDigit(s[i]) && s[i] != '#'
    requires s[i] == '*' ==> i + 2 >= |s| || !IsDigit(s[i + 2])
    ensures !IsBoundaryAt(s, i)
  {
    var t := s[i..];
    assert |t| >= 3 ==> t[2..][0] == t[2];
  }

  /* ---------------------------------------------------------------------- */
  /* Split                                                                   */
  /* ---------------------------------------------------------------------- */

  /** `marks[i]` says whether a lookahead matches at position `i` of `s`. */
  function BoundaryMarks(s: string): (marks: seq<bool>)
    ensures |marks| == |s|
    ensures forall i :: 0 <= i < |s| ==> marks[i] == IsBoundaryAt(s, i)
  {
    seq(|s|, i requires 0 <= i < |s| => IsBoundaryAt(s, i))
  }

  /** The chunks of `s[p..]`, where `p` starts the current chunk and every
      position from `q` on is still to be tested against `marks`. */
  function Chunks(s: string, marks: seq<bool>, p: nat, q: nat): (r: seq<string>)
    requires |marks| == |s| && p < q && p <= |s|
    ensures |r| >= 1
    decreases |s| - q
  {
    if q >= |s| then [s[p..]]
    else if marks[q] then [s[p..q]] + Chunks(s, marks, q, q + 1)
    else Chunks(s, marks, p, q + 1)
  }

  /** The result of `response.split(...)`. A match at index 0 never cuts, and
      the empty string splits into one empty chunk. */
  function Split(s: string): seq<string>
  {
    Chunks(s, BoundaryMarks(s), 0, 1)
  }

  /** The chunks glued back together. */
  function Concat(r: seq<string>): string
  {
    if r == [] then "" else r[0] + Concat(r[1..])
  }

  /** Where each chunk of `r` begins, when the first begins at `base`. */
  function Starts(r: seq<string>, base: int): (st: seq<int>)
    ensures |st| == |r|
  {
    if r == [] then [] else [base] + Starts(r[1..], base + |r[0]|)
  }

  lemma {:induction false} ChunksConcat(s: string, marks: seq<bool>, p: nat, q: nat)
    requires |marks| == |s| && p < q && p <= |s|
    ensures Concat(Chunks(s, marks, p, q)) == s[p..]
    ensures p < |s| ==> forall k :: 0 <= k < |Chunks(s, marks, p, q)| ==> Chunks(s, marks, p, q)[k] != []
    decreases |s| - q
  {
    if q >= |s| {
    } else if marks[q] {
      ChunksConcat(s, marks, q, q + 1);
      var rest := Chunks(s, marks, q, q + 1);
      assert ([s[p..q]] + rest)[1..] == rest;
      assert s[p..] == s[p..q] + s[q..];
    } else {
      ChunksConcat(s, marks, p, q + 1);
    }
  }

  lemma {:induction false} ChunksCuts(s: string, marks: seq<bool>, p: nat, q: nat)
    requires |marks| == |s| && p < q && p <= |s|
    ensures var r := Chunks(s, marks, p, q); var st := Starts(r, p);
      && st[0] == p
      && (forall k :: 1 <= k < |r| ==> q <= st[k] < |s| && marks[st[k]])
      && (forall i :: q <= i < |s| && marks[i] ==> i in st)
    decreases |s| - q
  {
    if q >= |s| {
    } else if marks[q] {
      ChunksCuts(s, marks, q, q + 1);
      var rest := Chunks(s, marks, q, q + 1);
      var r := [s[p..q]] + rest;
      assert r[1..] == rest;
      var st := Starts(r, p);
      assert st == [p] + Starts(rest, q);
      assert forall k :: 1 <= k < |r| ==> st[k] == Starts(rest, q)[k - 1];
    } else {
      ChunksCuts(s, marks, p, q + 1);
    }
  }

  /** Splitting is lossless, produces no empty chunk from a non-empty input,
      and cuts at exactly the positions after the first where a lookahead
      matches, mid-line or inside a digit run included. */
  lemma SplitSpec(s: string)
    ensures var r := Split(s); var st := Starts(r, 0);
      && Concat(r) == s
      && (|s| > 0 ==> forall k :: 0 <= k < |r| ==> r[k] != [])
      && st[0] == 0
      && (forall k :: 1 <= k < |r| ==> 0 < st[k] < |s| && IsBoundaryAt(s, st[k]))
      && (forall i :: 0 < i < |s| && IsBoundaryAt(s, i) ==> i in st)
  {
    ChunksConcat(s, BoundaryMarks(s), 0, 1);
    ChunksCuts(s, BoundaryMarks(s), 0, 1);
  }

  lemma {:induction false} ChunksUnmarked(s: string, marks: seq<bool>, p: nat, q: nat)
    requires |marks| == |s| && p < q && p <= |s|
    requires forall i :: q <= i < |s| ==> !marks[i]
    ensures Chunks(s, marks, p, q) == [s[p..]]
    decreases |s| - q
  {
    if q < |s| {
      ChunksUnmarked(s, marks, p, q + 1);
    }
  }

  /** Positions without a mark are passed over without a cut. */
  lemma {:induction false} ChunksSkip(s: string, marks: seq<bool>, p: nat, q: nat, q': nat)
    requires |marks| == |s| && p < q <= q' <= |s|
    requires forall i :: q <= i < q' ==> !marks[i]
    ensures Chunks(s, marks, p, q) == Chunks(s, marks, p, q')
    decreases q' - q
  {
    if q < q' {
      ChunksSkip(s, marks, p, q + 1, q');
    }
  }

  /** A marked position cuts the current chunk there. */
  lemma ChunksCut(s: string, marks: seq<bool>, p: nat, q: nat)
    requires |marks| == |s| && p < q < |s| && marks[q]
    ensures Chunks(s, marks, p, q) == [s[p..q]] + Chunks(s, marks, q, q + 1)
  {
  }

  /** At the end of the text the current chunk is the rest of it. */
  lemma ChunksEnd(s: string, marks: seq<bool>, p: nat)
    requires |marks| == |s| && p < |s|
    ensures Chunks(s, marks, p, |s|) == [s[p..]]
  {
  }

  /** From offset `p` to its end, `s` is the pieces `ts` one after another. */
  predicate Tiles(s: string, p: nat, ts: seq<string>)
    decreases |ts|
  {
    if ts == [] then p == |s|
    else p + |ts[0]| <= |s| && s[p..p + |ts[0]|] == ts[0] && Tiles(s, p + |ts[0]|, ts[1..])
  }

  /** With the pieces `ts` laid out from `p`, `marks` holds at the first
      position of every piece after the first and nowhere inside a piece. */
  predicate MarkedAtStarts(marks: seq<bool>, p: nat, ts: seq<string>)
    decreases |ts|
  {
    || ts == []
    || (&& p + |ts[0]| <= |marks|
        && (forall i :: p < i < p + |ts[0]| ==> !marks[i])
        && (|ts| > 1 ==> p + |ts[0]| < |marks| && marks[p + |ts[0]|])
        && MarkedAtStarts(marks, p + |ts[0]|, ts[1..]))
  }

  lemma TilesHead(s: string, p: nat, t: string, rest: seq<string>)
    requires Tiles(s, p, [t] + rest)
    ensures p + |t| <= |s| && s[p..p + |t|] == t && Tiles(s, p + |t|, rest)
  {
    assert ([t] + rest)[1..] == rest;
  }

  lemma MarkedAtStartsCons(marks: seq<bool>, p: nat, t: string, rest: seq<string>)
    requires p + |t| <= |marks| && (forall i :: p < i < p + |t| ==> !marks[i])
    requires rest != [] ==> p + |t| < |marks| && marks[p + |t|]
    requires MarkedAtStarts(marks, p + |t|, rest)
    ensures MarkedAtStarts(marks, p, [t] + rest)
  {
    assert ([t] + rest)[1..] == rest;
  }

  /** Text tiled by non-empty pieces whose first positions are exactly the
      marked ones is cut into those pieces. */
  lemma {:induction false} ChunksOfTiles(s: string, marks: seq<bool>, p: nat, ts: seq<string>)
    requires |marks| == |s| && ts != [] && (forall k :: 0 <= k < |ts| ==> ts[k] != [])
    requires Tiles(s, p, ts) && MarkedAtStarts(marks, p, ts)
    ensures p < |s| && Chunks(s, marks, p, p + 1) == ts
    decreases |ts|
  {
    var t := ts[0];
    var end := p + |t|;
    ChunksSkip(s, marks, p, p + 1, end);
    if |ts| == 1 {
      assert end == |s| && s[p..] == t;
      ChunksEnd(s, marks, p);
    } else {
      var rest := ts[1..];
      assert forall k :: 0 <= k < |rest| ==> rest[k] == ts[k + 1];
      ChunksOfTiles(s, marks, end, rest);
      ChunksCut(s, marks, p, end);
      assert ts == [t] + rest;
    }
  }

  /** A match of `\d+\.\s\*\*` at the front of `v + w` lies inside `v`
      when `v` ends in a line break and `w` does not start with `*`. */
  lemma NumBoldStopsAtLineEnd(v: string, w: string)
    requires |v| > 0 && v[|v| - 1] == '\n' && (w != [] ==> w[0] != '*')
    ensures StartsNumBold(v + w) ==> StartsNumBold(v)
  {
    var u := v + w;
    var last := |v| - 1;
    assert u[last] == '\n';
    if StartsNumBold(u) {
      var n := LeadingDigits(u);
      assert last != n + 1 by {
        if w != [] {
          assert u[|v|] == w[0];
        }
      }
      assert n + 4 <= |v|;
      assert v[..n] == u[..n];
      LeadingDigitsExact(v, n);
    }
  }

  /** A match of `\*\*\d+\.` at the front of `v + w` lies inside `v` when
      `v` ends in a line break. */
  lemma BoldNumStopsAtLineEnd(v: string, w: string)
    requires |v| > 0 && v[|v| - 1] == '\n'
    ensures StartsBoldNum(v + w) ==> StartsBoldNum(v)
  {
    var u := v + w;
    var last := |v| - 1;
    assert u[last] == '\n';
    if StartsBoldNum(u) {
      var n := LeadingDigits(u[2..]);
      assert n + 2 < |v|;
      assert v[2..][..n] == u[2..][..n];
      LeadingDigitsExact(v[2..], n);
    }
  }

  /** None of the three patterns can run across a line break into text that
      does not start with `*`: a match at the front of `v + w` is a match at
      the front of `v` alone. */
  lemma BoundaryStopsAtLineEnd(v: string, w: string)
    requires |v| > 0 && v[|v| - 1] == '\n' && (w != [] ==> w[0] != '*')
    ensures IsBoundaryAt(v + w, 0) ==> IsBoundaryAt(v, 0)
  {
    var u := v + w;
    assert u[0..] == u && v[0..] == v;
    NumBoldStopsAtLineEnd(v, w);
    BoldNumStopsAtLineEnd(v, w);
    assert StartsHeading(u) ==> |v| >= 3 && v[..3] == u[..3] by {
      assert u[|v| - 1] == '\n';
    }
  }

  /** The converse of `SplitSpec`: text tiled by non-empty pieces, where the
      lookaheads match exactly at the pieces' first positions, splits into
      exactly those pieces. */
  lemma SplitTiles(s: string, ts: seq<string>)
    requires ts != [] && (forall k :: 0 <= k < |ts| ==> ts[k] != [])
    requires Tiles(s, 0, ts) && MarkedAtStarts(BoundaryMarks(s), 0, ts)
    ensures Split(s) == ts
  {
    ChunksOfTiles(s, BoundaryMarks(s), 0, ts);
  }

  /** Text with no boundary after its first character stays in one piece. */
  lemma SplitWithoutBoundary(s: string)
    requires forall i :: 0 < i < |s| ==> !IsBoundaryAt(s, i)
    ensures Split(s) == [s]
  {
    ChunksUnmarked(s, BoundaryMarks(s), 0, 1);
  }

  /** The splitting loop of `String.prototype.split` for a regular-expression
      separator (the SplitMatcher loop of the ECMAScript standard), specialised
      to a separator that only matches the empty string: `p` is where the
      current chunk began, `q` the position being tested, and `marks[q]`
      whether the separator matches at `q`. */
  method SplitAtMarks(s: string, marks: seq<bool>) returns (chunks: seq<string>)
    requires |marks| == |s|
    ensures chunks == Chunks(s, marks, 0, 1)
  {
    if |s| == 0 {
      return [s];
    }
    var p, q := 0, 0;
    chunks := [];
    while q < |s|
      invariant 0 <= p <= q <= |s| && p < |s|
      invariant chunks + Chunks(s, marks, p, if p == q then p + 1 else q) == Chunks(s, marks, 0, 1)
      decreases |s| - q, q - p
    {
      if marks[q] {
        if q == p {
          // the match ends where the chunk began: no cut, move on
          q := q + 1;
        } else {
          chunks := chunks + [s[p..q]];
          p := q;
        }
      } else {
        q := q + 1;
      }
    }
    chunks := chunks + [s[p..]];
  }

  /** `response.split(...)`, testing the three lookaheads at every position
      and cutting where one matches. */
  method SplitByLookahead(s: string) returns (chunks: seq<string>)
    ensures chunks == Split(s)
  {
    var marks := seq(|s|, i requires 0 <= i < |s| => IsBoundaryAt(s, i));
    assert marks == BoundaryMarks(s);
    chunks := SplitAtMarks(s, marks);
  }
}
