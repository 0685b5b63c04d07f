/**
 The arithmetic of `handleDownloadPDF`: the fallback branch that draws one
 rasterised image once per page, into a box as tall as the image height
 still to place, at most a page's room, and the try/catch that chooses
 between the vector export, the fallback and the failure alert.

 Lengths are exact reals; the browser's IEEE-754 doubles are not modelled.
 */
module Export {

  /** Every page margin, in points. */
  const Margin: real := 20.0

  /** The file name of every saved document. */
  const FileName: string := "AI_Resume.pdf"

  /** One `pdf.addImage(imgData, "PNG", x, y, w, h)` call. */
  datatype Placement = Placement(x: real, y: real, w: real, h: real)

  function Min(a: real, b: real): real {
    if a <= b then a else b
  }

  /** The smallest integer not below `x`. */
  function Ceil(x: real): (c: int)
    ensures (c - 1) as real < x <= c as real
  {
    if x == x.Floor as real then x.Floor else x.Floor + 1
  }

  /** `pageWidth - 40`: the image spans the page between the side margins. */
  function ImageWidth(pageWidth: real): real {
    pageWidth - 2.0 * Margin
  }

  /** `canvas.height * imgWidth / canvas.width`: the image height that keeps
      the canvas's aspect ratio. */
  function ImageHeight(pageWidth: real, canvasWidth: real, canvasHeight: real): real
    requires canvasWidth > 0.0
  {
    canvasHeight * ImageWidth(pageWidth) / canvasWidth
  }

  /** The height each page can take: the page minus its top and bottom margins. */
  function SliceHeight(pageHeight: real): real {
    pageHeight - 2.0 * Margin
  }

  /** Taking one slice off the height leaves one slice fewer to take. */
  lemma DivShift(r: real, s: real)
    requires s > 0.0
    ensures (r - s) / s == r / s - 1.0
    ensures ((r - s) / s).Floor == (r / s).Floor - 1
  {
    var a := r / s;
    var b := (r - s) / s;
    assert a * s == r;
    assert b * s == r - s;
    var d := a - 1.0 - b;
    assert d * s == 0.0;
    assert d == (d * s) / s;
  }

  lemma DivNonPositive(x: real, s: real)
    requires s > 0.0 && x <= 0.0
    ensures x / s <= 0.0
  {
    var q := x / s;
    assert q * s == x;
  }

  lemma MulPos(a: real, b: real)
    requires a > 0.0 && b > 0.0
    ensures a * b > 0.0
  {
  }

  lemma MulNonNeg(a: real, b: real)
    requires a >= 0.0 && b >= 0.0
    ensures a * b >= 0.0
  {
  }

  /** a / b is the unique q with q * b == a. */
  lemma DivUnique(a: real, b: real, q: real)
    requires b > 0.0 && q * b == a
    ensures a / b == q
  {
  }

  lemma DivBelowOne(a: real, b: real)
    requires b > 0.0 && 0.0 <= a < b
    ensures 0.0 <= a / b < 1.0
  {
    var q := a / b;
    assert q * b == a;
    if q < 0.0 { MulPos(-q, b); }
    if q >= 1.0 { MulNonNeg(q - 1.0, b); }
  }

  lemma ScaleDiv(r: real, x: real, h: real)
    requires h > 0.0
    ensures r * x / h == (r / h) * x
  {
    var q := r / h;
    assert q * h == r;
    assert (q * x) * h == r * x;
    DivUnique(r * x, h, q * x);
  }

  /** `k` is the floor of `q` exactly when `q` lies in `[k, k + 1)`. */
  lemma FloorBetween(q: real, k: int)
    ensures k as real <= q < k as real + 1.0 <==> k == q.Floor
  {
    if k < q.Floor {
      assert k as real + 1.0 <= q.Floor as real;
    } else if k > q.Floor {
      assert q < q.Floor as real + 1.0 <= k as real;
    }
  }

  /** Dividing by a positive number keeps the order with a multiple. */
  lemma AtLeastMultiple(r: real, s: real, k: real)
    requires s > 0.0
    ensures k <= r / s <==> k * s <= r
  {
    var q := r / s;
    assert q * s == r;
    if k <= q { MulNonNeg(q - k, s); } else { MulPos(k - q, s); }
  }

  lemma BetweenMultiples(r: real, s: real, k: real)
    requires s > 0.0
    ensures k <= r / s < k + 1.0 <==> k * s <= r < (k + 1.0) * s
  {
    AtLeastMultiple(r, s, k);
    AtLeastMultiple(r, s, k + 1.0);
  }

  lemma DivLess(a: real, b: real, s: real)
    requires s > 0.0 && a < b
    ensures a / s < b / s
  {
    var p, q := a / s, b / s;
    assert p * s == a && q * s == b;
    if p >= q { MulNonNeg(p - q, s); }
  }

  /** The heights drawn while `remaining` image height is left and each page
      takes `slice`. */
  function SliceHeights(remaining: real, slice: real): (hs: seq<real>)
    requires slice > 0.0
    decreases if remaining <= 0.0 then 0 else (remaining / slice).Floor + 1
  {
    if remaining <= 0.0 then []
    else
      DivShift(remaining, slice);
      [Min(remaining, slice)] + SliceHeights(remaining - slice, slice)
  }

  function Sum(hs: seq<real>): real {
    if hs == [] then 0.0 else hs[0] + Sum(hs[1..])
  }

  /** The box heights the loop draws into: as many as `ceil(height / slice)`,
      every one a full page's room except the last, whose height is what is
      left over, and together as tall as the image. None at all for a
      non-positive height. */
  lemma {:induction false} SliceHeightsSpec(remaining: real, slice: real)
    requires slice > 0.0
    ensures var hs := SliceHeights(remaining, slice);
      && (remaining <= 0.0 ==> hs == [])
      && (remaining > 0.0 ==> |hs| == Ceil(remaining / slice))
      && (remaining > 0.0 ==> Sum(hs) == remaining)
      && (forall k :: 0 <= k < |hs| - 1 ==> hs[k] == slice)
      && (forall k :: 0 <= k < |hs| ==> 0.0 < hs[k] <= slice)
    decreases if remaining <= 0.0 then 0 else (remaining / slice).Floor + 1
  {
    if remaining > 0.0 {
      var rest := remaining - slice;
      DivShift(remaining, slice);
      SliceHeightsSpec(rest, slice);
      var hs := SliceHeights(remaining, slice);
      var tail := SliceHeights(rest, slice);
      assert hs == [Min(remaining, slice)] + tail;
      assert hs[1..] == tail;
      assert forall k :: 1 <= k < |hs| ==> hs[k] == tail[k - 1];
      if rest > 0.0 {
        assert Ceil(rest / slice) == Ceil(remaining / slice) - 1;
      } else {
        DivNonPositive(rest, slice);
        assert remaining / slice <= 1.0;
      }
    }
  }

  /** Each turn of the loop with height left draws one box. */
  lemma SliceCountStep(remaining: real, slice: real)
    requires slice > 0.0 && remaining > 0.0
    ensures |SliceHeights(remaining, slice)| == 1 + |SliceHeights(remaining - slice, slice)|
    ensures ((remaining - slice) / slice).Floor < (remaining / slice).Floor
  {
    DivShift(remaining, slice);
  }

  /** One turn of the placement loop: drawing the next box moves its height
      from the heights still to draw to the heights drawn. */
  lemma PlaceSlice(draws: seq<Placement>, d: Placement, remaining: real, slice: real, total: real)
    requires slice > 0.0 && remaining > 0.0 && d.h == Min(remaining, slice)
    requires Heights(draws) + SliceHeights(remaining, slice) == SliceHeights(total, slice)
    ensures Heights(draws + [d]) + SliceHeights(remaining - slice, slice) == SliceHeights(total, slice)
  {
    DivShift(remaining, slice);
    assert SliceHeights(remaining, slice) == [d.h] + SliceHeights(remaining - slice, slice);
    assert Heights(draws + [d]) == Heights(draws) + [d.h];
  }

  /** When the loop stops, the drawn heights are all the slices. */
  lemma PlacedAll(draws: seq<Placement>, remaining: real, slice: real, total: real)
    requires slice > 0.0 && remaining <= 0.0
    requires Heights(draws) + SliceHeights(remaining, slice) == SliceHeights(total, slice)
    ensures Heights(draws) == SliceHeights(total, slice)
    ensures total <= 0.0 ==> draws == []
    ensures total > 0.0 ==> |draws| == Ceil(total / slice) && Sum(Heights(draws)) == total
  {
    assert SliceHeights(remaining, slice) == [];
    assert Heights(draws) + [] == Heights(draws);
    SliceHeightsSpec(total, slice);
  }

  /** The fallback branch's placement loop: the whole image is drawn at the
      top margin of the current page, into a box `pageWidth - 40` wide and
      as tall as the height still to place, at most a page's room; a page
      is added while image height remains. */
  method FallbackPlacements(pageWidth: real, pageHeight: real, canvasWidth: real, canvasHeight: real)
    returns (draws: seq<Placement>, pagesAdded: nat)
    requires canvasWidth > 0.0 && pageHeight > 2.0 * Margin
    ensures var hs := SliceHeights(ImageHeight(pageWidth, canvasWidth, canvasHeight), SliceHeight(pageHeight));
      && |draws| == |hs|
      && (forall k :: 0 <= k < |draws| ==>
            draws[k] == Placement(Margin, Margin, ImageWidth(pageWidth), hs[k]))
    ensures pagesAdded == if |draws| == 0 then 0 else |draws| - 1
    ensures var h := ImageHeight(pageWidth, canvasWidth, canvasHeight);
      && (h <= 0.0 ==> draws == [])
      && (h > 0.0 ==> |draws| == Ceil(h / SliceHeight(pageHeight)) && Sum(Heights(draws)) == h)
  {
    var imgWidth := ImageWidth(pageWidth);
    var imgHeight := ImageHeight(pageWidth, canvasWidth, canvasHeight);
    var slice := SliceHeight(pageHeight);
    var remainingHeight := imgHeight;
    var position := 20.0;
    draws := [];
    pagesAdded := 0;
    while remainingHeight > 0.0
      invariant position == Margin
      invariant forall k :: 0 <= k < |draws| ==> draws[k].x == Margin && draws[k].y == Margin && draws[k].w == imgWidth
      invariant Heights(draws) + SliceHeights(remainingHeight, slice) == SliceHeights(imgHeight, slice)
      invariant |draws| == 0 ==> pagesAdded == 0 && remainingHeight == imgHeight
      invariant |draws| > 0 ==> pagesAdded == if remainingHeight > 0.0 then |draws| else |draws| - 1
      decreases (remainingHeight / slice).Floor + 1
    {
      var d := Placement(20.0, position, imgWidth, Min(remainingHeight, slice));
      PlaceSlice(draws, d, remainingHeight, slice, imgHeight);
      DivShift(remainingHeight, slice);
      draws := draws + [d];
      remainingHeight := remainingHeight - slice;
      if remainingHeight > 0.0 {
        pagesAdded := pagesAdded + 1;
        position := 20.0;
      }
    }
    PlacedAll(draws, remainingHeight, slice, imgHeight);
  }

  /** A 595 by 842 point page (A4 rounded to whole points) and a 1000 by
      3000 pixel canvas: the image is 555 points wide and 1665 tall, a page
      has 802 points of room, so the image is drawn three times, into boxes
      802, 802 and 61 tall, and two pages are added. */
  lemma A4Example()
    ensures ImageWidth(595.0) == 555.0
    ensures ImageHeight(595.0, 1000.0, 3000.0) == 1665.0
    ensures SliceHeights(ImageHeight(595.0, 1000.0, 3000.0), SliceHeight(842.0)) == [802.0, 802.0, 61.0]
  {
    assert SliceHeight(842.0) == 802.0;
    assert SliceHeights(61.0 - 802.0, 802.0) == [];
    assert SliceHeights(863.0 - 802.0, 802.0) == [61.0] + SliceHeights(61.0 - 802.0, 802.0);
    assert SliceHeights(1665.0 - 802.0, 802.0) == [802.0] + SliceHeights(863.0 - 802.0, 802.0);
  }

  function Heights(draws: seq<Placement>): (hs: seq<real>)
    ensures |hs| == |draws|
    ensures forall k :: 0 <= k < |draws| ==> hs[k] == draws[k].h
  {
    seq(|draws|, k requires 0 <= k < |draws| => draws[k].h)
  }

  /* ---------------------------------------------------------------------- */
  /* What each page shows                                                    */
  /* ---------------------------------------------------------------------- */

  /** The page height at which row `r` of an image `imgHeight` tall lands
      when placement `d` draws it: `addImage` scales the whole image into
      the placement's box. */
  function RowY(d: Placement, imgHeight: real, r: real): real
    requires imgHeight > 0.0
  {
    d.y + r * d.h / imgHeight
  }

  /** Page height `y` lies in the content area between the top and bottom
      margins of a page with `slice` of room. */
  predicate InContentArea(y: real, slice: real) {
    Margin <= y < Margin + slice
  }

  /** A row above the bottom of the image lands above the bottom of a box no
      taller than a page's room. */
  lemma ScaledRowInBox(h: real, r: real, boxH: real, slice: real)
    requires h > 0.0 && 0.0 <= r < h && 0.0 < boxH <= slice
    ensures 0.0 <= r * boxH / h < slice
  {
    var q := r / h;
    DivBelowOne(r, h);
    ScaleDiv(r, boxH, h);
    MulNonNeg(q, boxH);
    MulPos(1.0 - q, boxH);
  }

  /** As written, every box the fallback draws holds the whole image shrunk
      to the box's height, always at the top margin: every row of the image
      lands in the content area of every page. */
  lemma WholeImageOnEveryPage(h: real, slice: real, w: real, r: real, k: int)
    requires slice > 0.0 && 0.0 <= r < h
    requires 0 <= k < |SliceHeights(h, slice)|
    ensures InContentArea(RowY(Placement(Margin, Margin, w, SliceHeights(h, slice)[k]), h, r), slice)
  {
    var boxH := SliceHeights(h, slice)[k];
    assert 0.0 < boxH <= slice by {
      SliceHeightsSpec(h, slice);
    }
    ScaledRowInBox(h, r, boxH, slice);
    assert RowY(Placement(Margin, Margin, w, boxH), h, r) == Margin + r * boxH / h;
  }

  /** So an image taller than a page's room is drawn at least twice, and
      each of its rows lands in the content area of the first two pages
      alike. */
  lemma RowRepeatsAcrossPages(h: real, slice: real, w: real, r: real)
    requires slice > 0.0 && 0.0 <= r < h && h > slice
    ensures |SliceHeights(h, slice)| >= 2
    ensures InContentArea(RowY(Placement(Margin, Margin, w, SliceHeights(h, slice)[0]), h, r), slice)
    ensures InContentArea(RowY(Placement(Margin, Margin, w, SliceHeights(h, slice)[1]), h, r), slice)
  {
    DivShift(h, slice);
    assert SliceHeights(h, slice) == [Min(h, slice)] + SliceHeights(h - slice, slice);
    WholeImageOnEveryPage(h, slice, w, r, 0);
    WholeImageOnEveryPage(h, slice, w, r, 1);
  }

  /** Where page `k` of the intended fallback puts the image's top edge: the
      top margin, moved up by the room the earlier pages took. */
  function PageTop(k: int, slice: real): real {
    Margin - k as real * slice
  }

  lemma PageTopStep(k: int, slice: real)
    ensures PageTop(k + 1, slice) == PageTop(k, slice) - slice
  {
    assert (k as real + 1.0) * slice == k as real * slice + slice;
  }

  /** The fallback as evidently intended: every page draws the whole image
      at its own height, shifted up by the room the earlier pages took, so
      that page `k` shows the image from `k * slice` down. */
  method IntendedPlacements(pageWidth: real, pageHeight: real, canvasWidth: real, canvasHeight: real)
    returns (draws: seq<Placement>, pagesAdded: nat)
    requires canvasWidth > 0.0 && pageHeight > 2.0 * Margin
    ensures var h, slice := ImageHeight(pageWidth, canvasWidth, canvasHeight), SliceHeight(pageHeight);
      && |draws| == |SliceHeights(h, slice)|
      && (forall k :: 0 <= k < |draws| ==>
            draws[k] == Placement(Margin, PageTop(k, slice), ImageWidth(pageWidth), h))
    ensures pagesAdded == if |draws| == 0 then 0 else |draws| - 1
  {
    var imgWidth := ImageWidth(pageWidth);
    var imgHeight := ImageHeight(pageWidth, canvasWidth, canvasHeight);
    var slice := SliceHeight(pageHeight);
    var remainingHeight := imgHeight;
    var position := 20.0;
    draws := [];
    pagesAdded := 0;
    while remainingHeight > 0.0
      invariant remainingHeight > 0.0 ==> position == PageTop(|draws|, slice)
      invariant forall k :: 0 <= k < |draws| ==>
        draws[k] == Placement(Margin, PageTop(k, slice), imgWidth, imgHeight)
      invariant |draws| + |SliceHeights(remainingHeight, slice)| == |SliceHeights(imgHeight, slice)|
      invariant |draws| == 0 ==> pagesAdded == 0
      invariant |draws| > 0 ==> pagesAdded == if remainingHeight > 0.0 then |draws| else |draws| - 1
      decreases (remainingHeight / slice).Floor + 1
    {
      SliceCountStep(remainingHeight, slice);
      PageTopStep(|draws|, slice);
      draws := draws + [Placement(20.0, position, imgWidth, imgHeight)];
      remainingHeight := remainingHeight - slice;
      if remainingHeight > 0.0 {
        pagesAdded := pagesAdded + 1;
        position := position - slice;
      }
    }
  }

  /** Row `r` belongs on page `floor(r / slice)`, and the loop draws that
      page. */
  lemma RowPageDrawn(h: real, slice: real, r: real)
    requires slice > 0.0 && 0.0 <= r < h
    ensures 0 <= (r / slice).Floor < |SliceHeights(h, slice)|
  {
    SliceHeightsSpec(h, slice);
    AtLeastMultiple(r, slice, 0.0);
    DivLess(r, h, slice);
  }

  /** A whole image drawn at its own height from page `k`'s top edge shows
      row `r` in the content area exactly when `k * slice <= r < (k + 1) *
      slice`. */
  lemma ShiftedRowInArea(h: real, slice: real, w: real, r: real, k: int)
    requires slice > 0.0 && 0.0 <= r < h
    ensures InContentArea(RowY(Placement(Margin, PageTop(k, slice), w, h), h, r), slice)
      <==> k as real <= r / slice < k as real + 1.0
  {
    var kr := k as real;
    DivUnique(r * h, h, r);
    assert RowY(Placement(Margin, PageTop(k, slice), w, h), h, r) == Margin - kr * slice + r;
    assert (kr + 1.0) * slice == kr * slice + slice;
    BetweenMultiples(r, slice, kr);
  }

  /** With the intended placements every row of the image lands in the
      content area of exactly one page, page `floor(r / slice)`, and that
      page is one of those drawn. */
  lemma IntendedRowOnOnePage(h: real, slice: real, w: real, r: real, k: int)
    requires slice > 0.0 && 0.0 <= r < h && 0 <= k
    ensures 0 <= (r / slice).Floor < |SliceHeights(h, slice)|
    ensures InContentArea(RowY(Placement(Margin, PageTop(k, slice), w, h), h, r), slice)
      <==> k == (r / slice).Floor
  {
    ShiftedRowInArea(h, slice, w, r, k);
    FloorBetween(r / slice, k);
    assert 0 <= (r / slice).Floor < |SliceHeights(h, slice)| by {
      RowPageDrawn(h, slice, r);
    }
  }

  /* ---------------------------------------------------------------------- */
  /* The export attempt                                                      */
  /* ---------------------------------------------------------------------- */

  /** Which renderer produced the saved document. */
  datatype Path = Vector | Raster

  /** How one click on the download button ends. */
  datatype Outcome =
    | NothingToExport
    | Saved(path: Path, name: string)
    | Alerted

  /** `handleDownloadPDF` with the renderers' success as inputs: no element,
      nothing happens; otherwise the vector export is tried, and on its
      failure the raster fallback, and only when both fail is the user
      alerted. */
  function ExportOutcome(hasElement: bool, vectorSucceeds: bool, rasterSucceeds: bool): (o: Outcome)
    ensures o == NothingToExport <==> !hasElement
    ensures o.Saved? ==> o.name == FileName
    ensures o.Saved? && o.path == Vector <==> hasElement && vectorSucceeds
    ensures o.Saved? && o.path == Raster <==> hasElement && !vectorSucceeds && rasterSucceeds
    ensures o == Alerted <==> hasElement && !vectorSucceeds && !rasterSucceeds
  {
    if !hasElement then NothingToExport
    else if vectorSucceeds then Saved(Vector, FileName)
    else if rasterSucceeds then Saved(Raster, FileName)
    else Alerted
  }
}
