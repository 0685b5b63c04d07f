/**
 Character classes and the JavaScript string primitives the response pipeline
 relies on: `String.prototype.trim`, `startsWith`, `endsWith`, `includes`,
 `split` with a literal separator and `Array.prototype.join`.

 Strings are `seq<char>`; a `char` is a Unicode scalar value, whereas a
 JavaScript string is a sequence of UTF-16 code units. None of the characters
 the pipeline tests for is a surrogate, so the difference does not show.
 */
module Text {

  /** The characters matched by `\s` and removed by `trim`: the ECMAScript
      WhiteSpace and LineTerminator productions. The space-separator (Zs) part
      follows a recent Unicode version; the set JavaScript engines use moves with
      the Unicode version they ship, so this is an approximation of it. */
  predicate IsSpace(c: char) {
    || c == ' ' || ('\t' <= c <= '\r')
    || c == '\U{00A0}' || c == '\U{1680}' || ('\U{2000}' <= c <= '\U{200A}')
    || c == '\U{2028}' || c == '\U{2029}' || c == '\U{202F}' || c == '\U{205F}'
    || c == '\U{3000}' || c == '\U{FEFF}'
  }

  /** `\d` in a regular expression without the `u` flag: ASCII digits only. */
  predicate IsDigit(c: char) {
    '0' <= c <= '9'
  }

  predicate AllDigits(s: string) {
    forall i :: 0 <= i < |s| ==> IsDigit(s[i])
  }

  /** Length of the maximal run of digits at the front of `s`. */
  function LeadingDigits(s: string): (n: nat)
    ensures n <= |s|
    ensures AllDigits(s[..n])
    ensures n == |s| || !IsDigit(s[n])
  {
    if |s| > 0 && IsDigit(s[0]) then 1 + LeadingDigits(s[1..]) else 0
  }

  /** A digit run followed by a non-digit has exactly that length. */
  lemma LeadingDigitsExact(s: string, n: nat)
    requires n < |s| && AllDigits(s[..n]) && !IsDigit(s[n])
    ensures LeadingDigits(s) == n
  {
  }

  predicate StartsWith(s: string, prefix: string) {
    |prefix| <= |s| && s[..|prefix|] == prefix
  }

  predicate EndsWith(s: string, suffix: string) {
    |suffix| <= |s| && s[|s| - |suffix|..] == suffix
  }

  /** `sep` occurs in `s` starting at index `i`. */
  predicate OccursAt(s: string, sep: string, i: int) {
    0 <= i && i + |sep| <= |s| && s[i..i + |sep|] == sep
  }

  /** `s.includes(sep)` */
  predicate Contains(s: string, sep: string) {
    exists i | 0 <= i <= |s| - |sep| :: OccursAt(s, sep, i)
  }

  /* ---------------------------------------------------------------------- */
  /* trim                                                                    */
  /* ---------------------------------------------------------------------- */

  /** Every character of `s` in `[lo, hi)` is whitespace. */
  predicate SpaceBetween(s: string, lo: int, hi: int)
    requires 0 <= lo <= hi <= |s|
  {
    forall i :: lo <= i < hi ==> IsSpace(s[i])
  }

  /** `s.trimStart()` */
  function TrimStart(s: string): (r: string)
    ensures |r| <= |s|
  {
    if |s| > 0 && IsSpace(s[0]) then TrimStart(s[1..]) else s
  }

  /** `trimStart` drops exactly the leading whitespace: it keeps a suffix,
      everything before it is whitespace, and the suffix does not start with
      whitespace. */
  lemma {:induction false} TrimStartSpec(s: string)
    ensures var r := TrimStart(s);
      && r == s[|s| - |r|..] && SpaceBetween(s, 0, |s| - |r|)
      && (r == [] || !IsSpace(r[0]))
    decreases |s|
  {
    if |s| > 0 && IsSpace(s[0]) {
      TrimStartSpec(s[1..]);
      var r := TrimStart(s);
      assert s[1..][|s| - 1 - |r|..] == s[|s| - |r|..];
      forall i | 0 <= i < |s| - |r|
        ensures IsSpace(s[i])
      {
        if i > 0 {
          assert s[i] == s[1..][i - 1];
        }
      }
    }
  }

  /** `s.trimEnd()` */
  function TrimEnd(s: string): (r: string)
    ensures |r| <= |s|
  {
    if |s| > 0 && IsSpace(s[|s| - 1]) then TrimEnd(s[..|s| - 1]) else s
  }

  /** `trimEnd` drops exactly the trailing whitespace. */
  lemma {:induction false} TrimEndSpec(s: string)
    ensures var r := TrimEnd(s);
      && r == s[..|r|] && SpaceBetween(s, |r|, |s|)
      && (r == [] || !IsSpace(r[|r| - 1]))
    decreases |s|
  {
    if |s| > 0 && IsSpace(s[|s| - 1]) {
      var u := s[..|s| - 1];
      TrimEndSpec(u);
      var r := TrimEnd(s);
      assert u[..|r|] == s[..|r|];
      forall i | |r| <= i < |s|
        ensures IsSpace(s[i])
      {
        if i < |s| - 1 {
          assert s[i] == u[i];
        }
      }
    }
  }

  /** `s[a..b]` is a window whose outside is all whitespace and whose two
      ends are not whitespace. */
  predicate IsTrimWindow(s: string, a: int, b: int) {
    && 0 <= a <= b <= |s|
    && SpaceBetween(s, 0, a) && SpaceBetween(s, b, |s|)
    && (a == b || (!IsSpace(s[a]) && !IsSpace(s[b - 1])))
  }

  /** `s.trim()` */
  function Trim(s: string): (r: string)
    ensures |r| <= |s|
  {
    TrimEnd(TrimStart(s))
  }

  /** `trim` keeps the window between the leading and the trailing
      whitespace. */
  lemma TrimSpec(s: string)
    ensures var r, a := Trim(s), |s| - |TrimStart(s)|;
      IsTrimWindow(s, a, a + |r|) && r == s[a..a + |r|]
  {
    var t := TrimStart(s);
    TrimStartSpec(s);
    TrimEndSpec(t);
    TrimWindow(s, t, TrimEnd(t));
  }

  /** `trim` returns a slice of its input. */
  lemma TrimSlice(s: string)
    ensures var r, a := Trim(s), |s| - |TrimStart(s)|;
      a + |r| <= |s| && r == s[a..a + |r|]
  {
    TrimSpec(s);
  }

  lemma TrimWindow(s: string, t: string, r: string)
    requires |t| <= |s| && t == s[|s| - |t|..] && SpaceBetween(s, 0, |s| - |t|)
    requires t == [] || !IsSpace(t[0])
    requires |r| <= |t| && r == t[..|r|] && SpaceBetween(t, |r|, |t|)
    requires r == [] || !IsSpace(r[|r| - 1])
    ensures IsTrimWindow(s, |s| - |t|, |s| - |t| + |r|)
    ensures r == s[|s| - |t|..|s| - |t| + |r|]
  {
    var a := |s| - |t|;
    assert r == s[a..a + |r|];
    assert SpaceBetween(s, a + |r|, |s|) by {
      forall i | a + |r| <= i < |s|
        ensures IsSpace(s[i])
      {
        assert s[i] == t[i - a];
      }
    }
    // trimEnd stops at a non-space, so it cannot empty a string that
    // trimStart left starting with one
    assert |r| < |t| ==> IsSpace(t[|r|]);
  }

  /** Any whitespace-delimited window is the one `trim` keeps: an independent
      description of `trim` that does not mention how it scans. */
  lemma TrimWindowUnique(s: string, a: int, b: int)
    requires IsTrimWindow(s, a, b)
    ensures Trim(s) == s[a..b]
  {
    var r := Trim(s);
    TrimSpec(s);
    var a' := |s| - |TrimStart(s)|;
    var b' := a' + |r|;
    assert a < b ==> a' <= a && a <= a';
    assert a < b ==> b <= b' && b' <= b;
    assert a' < b' ==> a < b;
  }

  /** `trim` returns the empty string exactly for whitespace-only input
      (the source's `if (!section.trim())` and blank-line tests). */
  lemma TrimEmptyIffAllSpace(s: string)
    ensures Trim(s) == [] <==> SpaceBetween(s, 0, |s|)
  {
    TrimSpec(s);
    if SpaceBetween(s, 0, |s|) {
      TrimWindowUnique(s, 0, 0);
    }
  }

  lemma TrimWindowExtend(z: string, w: string, a: int, b: int)
    requires IsTrimWindow(z, a, b) && SpaceBetween(w, 0, |w|)
    ensures IsTrimWindow(z + w, a, b)
  {
    var y := z + w;
    assert forall i :: 0 <= i < |z| ==> y[i] == z[i];
    assert forall i :: |z| <= i < |y| ==> y[i] == w[i - |z|];
  }

  /** Trailing whitespace does not change what `trim` keeps. */
  lemma TrimDropsTrailingSpace(z: string, w: string)
    requires SpaceBetween(w, 0, |w|)
    ensures Trim(z + w) == Trim(z)
  {
    TrimSpec(z);
    var a := |z| - |TrimStart(z)|;
    var b := a + |Trim(z)|;
    TrimWindowExtend(z, w, a, b);
    TrimWindowUnique(z + w, a, b);
    assert (z + w)[a..b] == z[a..b];
  }

  /** A string that neither starts nor ends with whitespace is its own trim. */
  lemma TrimNoOuterSpace(z: string)
    requires |z| > 0 && !IsSpace(z[0]) && !IsSpace(z[|z| - 1])
    ensures Trim(z) == z
  {
    TrimWindowUnique(z, 0, |z|);
    assert z[0..|z|] == z;
  }

  lemma TrimIdempotent(s: string)
    ensures Trim(Trim(s)) == Trim(s)
  {
    var r := Trim(s);
    TrimSpec(s);
    assert r[0..|r|] == r;
    TrimWindowUnique(r, 0, |r|);
  }

  /* ---------------------------------------------------------------------- */
  /* split and join on a literal separator                                   */
  /* ---------------------------------------------------------------------- */

  /** `s.split(sep)` for a non-empty string separator: cut at the leftmost
      occurrence, skip the separator, continue; occurrences never overlap. */
  function SplitOn(s: string, sep: string): (r: seq<string>)
    requires |sep| > 0
    ensures |r| >= 1
    decreases |s|
  {
    if |s| < |sep| then [s]
    else if s[..|sep|] == sep then [""] + SplitOn(s[|sep|..], sep)
    else
      var rest := SplitOn(s[1..], sep);
      [[s[0]] + rest[0]] + rest[1..]
  }

  /** `pieces.join(sep)` */
  function Join(pieces: seq<string>, sep: string): string
  {
    if |pieces| == 0 then ""
    else if |pieces| == 1 then pieces[0]
    else pieces[0] + sep + Join(pieces[1..], sep)
  }

  /** Leftmost, non-overlapping occurrences of `sep` in `s`: the number of
      cuts `split` makes. */
  function CountOccurrences(s: string, sep: string): nat
    requires |sep| > 0
    decreases |s|
  {
    if |s| < |sep| then 0
    else if s[..|sep|] == sep then 1 + CountOccurrences(s[|sep|..], sep)
    else CountOccurrences(s[1..], sep)
  }

  ghost predicate SepFree(p: string, sep: string) {
    forall i :: !OccursAt(p, sep, i)
  }

  /** No occurrence of `sep` starts inside `p` when `p` is followed by `sep`:
      the separator right after `p` is the leftmost one. */
  ghost predicate CutsLeftmost(p: string, sep: string) {
    forall i :: 0 <= i < |p| ==> !OccursAt(p + sep, sep, i)
  }

  /** The shape of the pieces `split` produces: every piece but the last is
      cut at the leftmost separator after it, and the last holds none. */
  ghost predicate LeftmostPieces(ps: seq<string>, sep: string)
    decreases |ps|
  {
    && |ps| > 0
    && if |ps| == 1 then SepFree(ps[0], sep)
       else CutsLeftmost(ps[0], sep) && LeftmostPieces(ps[1..], sep)
  }

  lemma CutsLeftmostIsSepFree(p: string, sep: string)
    requires |sep| > 0 && CutsLeftmost(p, sep)
    ensures SepFree(p, sep)
  {
    forall i | 0 <= i < |p|
      ensures !OccursAt(p, sep, i)
    {
      assert !OccursAt(p + sep, sep, i);
      assert i + |sep| <= |p| ==> (p + sep)[i..i + |sep|] == p[i..i + |sep|];
    }
  }

  lemma JoinCons(p: string, ps: seq<string>, sep: string)
    requires |ps| > 0
    ensures Join([p] + ps, sep) == p + sep + Join(ps, sep)
  {
    assert ([p] + ps)[1..] == ps;
  }

  lemma JoinEmptyHead(ps: seq<string>, sep: string)
    requires |ps| > 0
    ensures Join([""] + ps, sep) == sep + Join(ps, sep)
  {
    JoinCons("", ps, sep);
    assert "" + sep == sep;
  }

  /** A character put in front of the first piece is put in front of the
      joined string. */
  lemma JoinPrepend(c: char, ps: seq<string>, sep: string)
    requires |ps| > 0
    ensures Join([[c] + ps[0]] + ps[1..], sep) == [c] + Join(ps, sep)
  {
    if |ps| > 1 {
      JoinCons([c] + ps[0], ps[1..], sep);
      JoinCons(ps[0], ps[1..], sep);
      assert ps == [ps[0]] + ps[1..];
    }
  }

  lemma SplitJoinAtSep(s: string, sep: string, t: string, rest: seq<string>)
    requires |sep| > 0 && |rest| > 0 && s == sep + t && SplitOn(s, sep) == [""] + rest && Join(rest, sep) == t
    ensures Join(SplitOn(s, sep), sep) == s
  {
    JoinEmptyHead(rest, sep);
  }

  lemma SplitJoinAtChar(s: string, sep: string, c: char, t: string, rest: seq<string>)
    requires |sep| > 0 && |rest| > 0 && s == [c] + t && SplitOn(s, sep) == [[c] + rest[0]] + rest[1..]
    requires Join(rest, sep) == t
    ensures Join(SplitOn(s, sep), sep) == s
  {
    JoinPrepend(c, rest, sep);
  }

  /** Splitting loses nothing: joining the pieces gives the input back. */
  lemma {:induction false} SplitJoin(s: string, sep: string)
    requires |sep| > 0
    ensures Join(SplitOn(s, sep), sep) == s
    decreases |s|
  {
    if |s| < |sep| {
    } else if s[..|sep|] == sep {
      var t := s[|sep|..];
      SplitJoin(t, sep);
      assert s == s[..|sep|] + t;
      SplitJoinAtSep(s, sep, t, SplitOn(t, sep));
    } else {
      var t := s[1..];
      SplitJoin(t, sep);
      assert s == [s[0]] + t;
      SplitJoinAtChar(s, sep, s[0], t, SplitOn(t, sep));
    }
  }

  lemma SepFreeTail(s: string, sep: string)
    requires |s| > 0 && SepFree(s, sep)
    ensures SepFree(s[1..], sep)
  {
    forall i | OccursAt(s[1..], sep, i)
      ensures false
    {
      assert s[1..][i..i + |sep|] == s[i + 1..i + 1 + |sep|];
      assert OccursAt(s, sep, i + 1);
    }
  }

  /** A piece without a separator is not cut. */
  lemma {:induction false} SplitSepFree(s: string, sep: string)
    requires |sep| > 0 && SepFree(s, sep)
    ensures SplitOn(s, sep) == [s]
    decreases |s|
  {
    if |s| < |sep| {
    } else {
      assert !OccursAt(s, sep, 0);
      SepFreeTail(s, sep);
      SplitSepFree(s[1..], sep);
      assert [s[0]] + s[1..] == s;
    }
  }

  /** Splitting `p + sep + t` cuts right after `p` when that is the leftmost
      separator. */
  lemma {:induction false} SplitAfterPiece(p: string, sep: string, t: string)
    requires |sep| > 0 && CutsLeftmost(p, sep)
    ensures SplitOn(p + sep + t, sep) == [p] + SplitOn(t, sep)
    decreases |p|
  {
    var s := p + sep + t;
    if p == [] {
      assert s[..|sep|] == sep && s[|sep|..] == t;
    } else {
      assert (p + sep)[0..|sep|] == s[..|sep|];
      assert !OccursAt(p + sep, sep, 0);
      forall i | 0 <= i < |p[1..]|
        ensures !OccursAt(p[1..] + sep, sep, i)
      {
        assert (p[1..] + sep)[i..i + |sep|] == (p + sep)[i + 1..i + 1 + |sep|];
        assert !OccursAt(p + sep, sep, i + 1);
      }
      SplitAfterPiece(p[1..], sep, t);
      assert s[1..] == p[1..] + sep + t;
      assert [s[0]] + p[1..] == p;
    }
  }

  /** Join and split are inverse on pieces of the shape split produces. */
  lemma {:induction false} JoinSplit(ps: seq<string>, sep: string)
    requires |sep| > 0 && LeftmostPieces(ps, sep)
    ensures SplitOn(Join(ps, sep), sep) == ps
    decreases |ps|
  {
    if |ps| == 1 {
      SplitSepFree(ps[0], sep);
    } else {
      var tail := ps[1..];
      JoinSplit(tail, sep);
      SplitAfterPiece(ps[0], sep, Join(tail, sep));
      assert ps == [ps[0]] + tail;
    }
  }

  lemma SepFreeCons(s: string, sep: string)
    requires |s| > 0 && !OccursAt(s, sep, 0) && SepFree(s[1..], sep)
    ensures SepFree(s, sep)
  {
    forall i | 0 < i
      ensures !OccursAt(s, sep, i)
    {
      assert OccursAt(s, sep, i) ==> s[1..][i - 1..i - 1 + |sep|] == s[i..i + |sep|];
      assert !OccursAt(s[1..], sep, i - 1);
    }
  }

  lemma CutsLeftmostCons(c: char, p: string, sep: string, x: string)
    requires CutsLeftmost(p, sep) && !OccursAt([c] + p + sep + x, sep, 0)
    ensures CutsLeftmost([c] + p, sep)
  {
    var h := [c] + p;
    assert (h + sep)[..|sep|] == ([c] + p + sep + x)[..|sep|];
    forall i | 1 <= i < |h|
      ensures !OccursAt(h + sep, sep, i)
    {
      assert (h + sep)[i..i + |sep|] == (p + sep)[i - 1..i - 1 + |sep|];
      assert !OccursAt(p + sep, sep, i - 1);
    }
  }

  /** The pieces `split` returns have the leftmost shape. */
  lemma {:induction false} SplitPiecesLeftmost(s: string, sep: string)
    requires |sep| > 0
    ensures LeftmostPieces(SplitOn(s, sep), sep)
    decreases |s|
  {
    if |s| < |sep| {
      assert forall i :: !OccursAt(s, sep, i);
    } else if s[..|sep|] == sep {
      SplitPiecesLeftmost(s[|sep|..], sep);
      LeftmostAfterLeadingSep(s[|sep|..], sep);
    } else {
      SplitPiecesLeftmost(s[1..], sep);
      LeftmostExtendHead(s, sep);
    }
  }

  lemma LeftmostAfterLeadingSep(t: string, sep: string)
    requires |sep| > 0 && LeftmostPieces(SplitOn(t, sep), sep)
    ensures LeftmostPieces([""] + SplitOn(t, sep), sep)
  {
    var rest := SplitOn(t, sep);
    assert ([""] + rest)[1..] == rest;
  }

  lemma LeftmostExtendHead(s: string, sep: string)
    requires |sep| > 0 && |s| >= |sep| && s[..|sep|] != sep
    requires LeftmostPieces(SplitOn(s[1..], sep), sep)
    ensures LeftmostPieces(SplitOn(s, sep), sep)
  {
    var rest := SplitOn(s[1..], sep);
    SplitJoin(s[1..], sep);
    assert SplitOn(s, sep) == [[s[0]] + rest[0]] + rest[1..];
    LeftmostCons(s, sep, rest);
  }

  lemma LeftmostConsLast(c: char, p: string, sep: string)
    requires |sep| > 0 && !OccursAt([c] + p, sep, 0) && SepFree(p, sep)
    ensures LeftmostPieces([[c] + p], sep)
  {
    var h := [c] + p;
    assert h[1..] == p;
    SepFreeCons(h, sep);
  }

  lemma LeftmostConsMore(c: char, rest: seq<string>, sep: string)
    requires |sep| > 0 && |rest| > 1 && LeftmostPieces(rest, sep)
    requires !OccursAt([c] + rest[0] + sep + Join(rest[1..], sep), sep, 0)
    ensures LeftmostPieces([[c] + rest[0]] + rest[1..], sep)
  {
    var r := [[c] + rest[0]] + rest[1..];
    assert r[1..] == rest[1..];
    CutsLeftmostCons(c, rest[0], sep, Join(rest[1..], sep));
  }

  lemma LeftmostCons(s: string, sep: string, rest: seq<string>)
    requires |sep| > 0 && |s| >= |sep| && s[..|sep|] != sep
    requires LeftmostPieces(rest, sep) && Join(rest, sep) == s[1..]
    ensures LeftmostPieces([[s[0]] + rest[0]] + rest[1..], sep)
  {
    assert !OccursAt(s, sep, 0);
    assert s == [s[0]] + s[1..];
    if |rest| == 1 {
      LeftmostConsLast(s[0], rest[0], sep);
    } else {
      JoinCons(rest[0], rest[1..], sep);
      assert rest == [rest[0]] + rest[1..];
      assert s == [s[0]] + rest[0] + sep + Join(rest[1..], sep);
      LeftmostConsMore(s[0], rest, sep);
    }
  }

  /** No piece of the leftmost shape holds a separator. */
  lemma {:induction false} LeftmostPiecesSepFree(ps: seq<string>, sep: string)
    requires |sep| > 0 && LeftmostPieces(ps, sep)
    ensures forall k :: 0 <= k < |ps| ==> SepFree(ps[k], sep)
    decreases |ps|
  {
    if |ps| > 1 {
      LeftmostPiecesSepFree(ps[1..], sep);
      CutsLeftmostIsSepFree(ps[0], sep);
      assert forall k :: 1 <= k < |ps| ==> ps[k] == ps[1..][k - 1];
    }
  }

  /** `split` makes one more piece than there are (non-overlapping,
      leftmost) separators. */
  lemma {:induction false} SplitCount(s: string, sep: string)
    requires |sep| > 0
    ensures |SplitOn(s, sep)| == CountOccurrences(s, sep) + 1
    decreases |s|
  {
    if |s| < |sep| {
    } else if s[..|sep|] == sep {
      SplitCount(s[|sep|..], sep);
    } else {
      SplitCount(s[1..], sep);
    }
  }

  /** A string splits into a single piece exactly when it holds no separator. */
  lemma SplitSingleIffNoSep(s: string, sep: string)
    requires |sep| > 0
    ensures |SplitOn(s, sep)| == 1 <==> !Contains(s, sep)
  {
    var r := SplitOn(s, sep);
    SplitPiecesLeftmost(s, sep);
    SplitJoin(s, sep);
    if |r| == 1 {
      assert Join(r, sep) == r[0];
    } else {
      JoinCons(r[0], r[1..], sep);
      assert r == [r[0]] + r[1..];
      assert s[|r[0]|..|r[0]| + |sep|] == sep;
      assert OccursAt(s, sep, |r[0]|);
    }
  }
}
