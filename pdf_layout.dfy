/**
 * The arithmetic of the PDF export around the planner: the canvas height of one
 * A4 page, derived from the printable area and the canvas width, and the loop
 * that turns the planned breaks into one canvas slice per PDF page.
 *
 * Drawing the slices, encoding them as images and assembling the PDF are left
 * out; a page is described by the slice it shows and the height it is placed at.
 */
module PdfLayout {
  import opened Boundaries
  import opened Planner

  /** A4 portrait, in millimetres. */
  const A4Width: real := 210.0
  const A4Height: real := 297.0
  const Padding: real := 8.0

  /** The printable width: one padding on each side. */
  const ContentWidth: real := A4Width - Padding * 2.0

  /** The printable height: three paddings are kept free in all. */
  const ContentHeight: real := A4Height - Padding * 3.0

  /** Millimetres per canvas pixel, so that the canvas width fills the printable width. */
  function Scale(canvasWidth: real): (scale: real)
    requires canvasWidth > 0.0
    ensures scale > 0.0
    ensures scale * canvasWidth == ContentWidth
  {
    ContentWidth / canvasWidth
  }

  /**
   * The height of canvas that fills the printable height of one page. It is
   * positive, and placed at `Scale` it is exactly the printable height.
   */
  function CanvasPageHeight(canvasWidth: real): (pageHeight: real)
    requires canvasWidth > 0.0
    ensures pageHeight > 0.0
    ensures pageHeight * Scale(canvasWidth) == ContentHeight
    ensures pageHeight * ContentWidth == canvasWidth * ContentHeight
  {
    var scale := Scale(canvasWidth);
    var pageHeight := ContentHeight / scale;
    assert pageHeight * scale == ContentHeight;
    assert pageHeight * (scale * canvasWidth) == ContentHeight * canvasWidth;
    pageHeight
  }

  /**
   * One PDF page: every page is filled with the background colour; a page whose
   * slice is not empty also shows the canvas rows `[sourceY, sourceY + sourceHeight)`,
   * placed `targetHeight` millimetres tall.
   */
  datatype Page = Blank | Slice(sourceY: real, sourceHeight: real, targetHeight: real)

  /** Where the `i`-th page's slice ends: at the `i`-th break, or at the bottom of the canvas for the last page. */
  function SliceEnd(breaks: seq<real>, canvasHeight: real, i: int): real
    requires 0 <= i <= |breaks|
  {
    if i < |breaks| then breaks[i] else canvasHeight
  }

  /** The breaks increase from the top of the canvas and stay above its bottom. */
  predicate BreaksInside(breaks: seq<real>, canvasHeight: real)
  {
    Increasing(breaks, 0.0) && LastOf(breaks, 0.0) < canvasHeight
  }

  /** The total canvas height shown by the pages. */
  function SumHeights(pages: seq<Page>): real
  {
    if pages == [] then 0.0
    else
      var last := pages[|pages| - 1];
      SumHeights(pages[..|pages| - 1]) + (if last.Slice? then last.sourceHeight else 0.0)
  }

  /** The height, in millimetres, at which a slice of the canvas is placed on its page. */
  function Placed(sliceHeight: real, scale: real): real
  {
    sliceHeight * scale
  }

  /** The page that shows the canvas between the `i`-th page's start and end, at the given scale. */
  function PlannedPage(breaks: seq<real>, canvasHeight: real, scale: real, i: int): Page
    requires 0 <= i <= |breaks|
  {
    var height := SliceEnd(breaks, canvasHeight, i) - Prev(breaks, 0.0, i);
    Slice(Prev(breaks, 0.0, i), height, Placed(height, scale))
  }

  /**
   * The pages from the `i`-th on, when the previous break is `prevBreak`: each
   * page shows the canvas from the previous break down to its own end; a page
   * whose slice would be empty or negative stays blank and leaves the previous
   * break where it was. There is one page per remaining break plus one, and
   * every slice shown is non-empty and placed at the given scale.
   */
  function SlicesFrom(breaks: seq<real>, canvasHeight: real, scale: real, i: nat, prevBreak: real): (pages: seq<Page>)
    requires i <= |breaks| + 1
    ensures |pages| == |breaks| + 1 - i
    ensures forall k :: 0 <= k < |pages| && pages[k].Slice? ==>
      pages[k].sourceHeight > 0.0 && pages[k].targetHeight == Placed(pages[k].sourceHeight, scale)
    decreases |breaks| + 1 - i
  {
    if i == |breaks| + 1 then []
    else
      var sourceHeight := SliceEnd(breaks, canvasHeight, i) - prevBreak;
      if sourceHeight <= 0.0 then
        [Blank] + SlicesFrom(breaks, canvasHeight, scale, i + 1, prevBreak)
      else
        [Slice(prevBreak, sourceHeight, Placed(sourceHeight, scale))]
          + SlicesFrom(breaks, canvasHeight, scale, i + 1, SliceEnd(breaks, canvasHeight, i))
  }

  /**
   * The slicing loop: one page per break plus one for the rest of the canvas. A
   * page whose slice would be empty or negative stays blank, and then the
   * previous break is not advanced.
   */
  method SlicePages(breaks: seq<real>, canvasHeight: real, scale: real) returns (pages: seq<Page>)
    ensures pages == SlicesFrom(breaks, canvasHeight, scale, 0, 0.0)
  {
    var prevBreak := 0.0;
    pages := [];
    for i := 0 to |breaks| + 1
      invariant pages + SlicesFrom(breaks, canvasHeight, scale, i, prevBreak) == SlicesFrom(breaks, canvasHeight, scale, 0, 0.0)
    {
      var sourceY := prevBreak;
      var sourceHeight := if i < |breaks| then breaks[i] - prevBreak else canvasHeight - prevBreak;
      if sourceHeight <= 0.0 {
        ghost var rest := SlicesFrom(breaks, canvasHeight, scale, i + 1, prevBreak);
        assert SlicesFrom(breaks, canvasHeight, scale, i, prevBreak) == [Blank] + rest;
        assert pages + [Blank] + rest == pages + ([Blank] + rest);
        pages := pages + [Blank];
        continue;
      }
      var targetHeight := Placed(sourceHeight, scale);
      ghost var rest := SlicesFrom(breaks, canvasHeight, scale, i + 1, SliceEnd(breaks, canvasHeight, i));
      assert SlicesFrom(breaks, canvasHeight, scale, i, prevBreak) == [Slice(sourceY, sourceHeight, targetHeight)] + rest;
      assert pages + [Slice(sourceY, sourceHeight, targetHeight)] + rest == pages + ([Slice(sourceY, sourceHeight, targetHeight)] + rest);
      pages := pages + [Slice(sourceY, sourceHeight, targetHeight)];
      prevBreak := if i < |breaks| then breaks[i] else canvasHeight;
    }
  }

  /**
   * A break that does not lie below the previous one leaves a blank page, and the
   * next page starts again from the previous break: breaks at 300, 200 and 500 on
   * a 600-unit canvas give the slices 0-300, none, 300-500 and 500-600.
   */
  lemma {:induction false} SkippedBreakKeepsPrevious()
    ensures SlicesFrom([300.0, 200.0, 500.0], 600.0, 0.5, 0, 0.0)
      == [Slice(0.0, 300.0, 150.0), Blank, Slice(300.0, 200.0, 100.0), Slice(500.0, 100.0, 50.0)]
  {
    var breaks := [300.0, 200.0, 500.0];
    assert SlicesFrom(breaks, 600.0, 0.5, 4, 600.0) == [];
    assert SlicesFrom(breaks, 600.0, 0.5, 3, 500.0) == [Slice(500.0, 100.0, 50.0)];
    assert SlicesFrom(breaks, 600.0, 0.5, 2, 300.0) == [Slice(300.0, 200.0, 100.0), Slice(500.0, 100.0, 50.0)];
    assert SlicesFrom(breaks, 600.0, 0.5, 1, 300.0) == [Blank, Slice(300.0, 200.0, 100.0), Slice(500.0, 100.0, 50.0)];
  }

  /**
   * For breaks inside the canvas no page stays blank: from the `i`-th page on,
   * each page shows the canvas between its previous break and its own end.
   */
  lemma {:induction false} SlicesFromPlanned(breaks: seq<real>, canvasHeight: real, scale: real, i: nat)
    requires BreaksInside(breaks, canvasHeight) && i <= |breaks|
    ensures forall k :: 0 <= k <= |breaks| - i ==>
      SlicesFrom(breaks, canvasHeight, scale, i, Prev(breaks, 0.0, i))[k] == PlannedPage(breaks, canvasHeight, scale, i + k)
    decreases |breaks| - i
  {
    var prev := Prev(breaks, 0.0, i);
    var pages := SlicesFrom(breaks, canvasHeight, scale, i, prev);
    if i < |breaks| {
      assert prev < breaks[i];
      SlicesFromPlanned(breaks, canvasHeight, scale, i + 1);
      var rest := SlicesFrom(breaks, canvasHeight, scale, i + 1, Prev(breaks, 0.0, i + 1));
      assert pages == [PlannedPage(breaks, canvasHeight, scale, i)] + rest;
      forall k | 0 <= k < |pages|
        ensures pages[k] == PlannedPage(breaks, canvasHeight, scale, i + k)
      {
        if k > 0 {
          assert pages[k] == rest[k - 1];
          assert rest[k - 1] == PlannedPage(breaks, canvasHeight, scale, i + 1 + (k - 1));
        }
      }
    } else {
      assert prev == LastOf(breaks, 0.0);
      assert SlicesFrom(breaks, canvasHeight, scale, i + 1, canvasHeight) == [];
      assert pages == [PlannedPage(breaks, canvasHeight, scale, i)];
    }
  }

  /**
   * Pages that show the planned slices cover the canvas from the top: the first
   * `n` of them add up to the height of the `n`-th page's start.
   */
  lemma {:induction false} PlannedPagesCover(breaks: seq<real>, canvasHeight: real, scale: real, pages: seq<Page>, n: nat)
    requires |pages| == |breaks| + 1 && n <= |pages|
    requires forall k :: 0 <= k < |pages| ==> pages[k] == PlannedPage(breaks, canvasHeight, scale, k)
    ensures SumHeights(pages[..n]) == if n <= |breaks| then Prev(breaks, 0.0, n) else canvasHeight
  {
    if n > 0 {
      PlannedPagesCover(breaks, canvasHeight, scale, pages, n - 1);
      assert pages[..n][..n - 1] == pages[..n - 1];
      assert pages[..n][n - 1] == PlannedPage(breaks, canvasHeight, scale, n - 1);
    }
  }

  /** For planned breaks, no slice is taller than one page height. */
  lemma PlannedSliceWithinPage(breaks: seq<real>, canvasHeight: real, pageHeight: real, i: int)
    requires PageCapped(breaks, 0.0, pageHeight) && TailFits(breaks, 0.0, canvasHeight, pageHeight)
    requires 0 <= i <= |breaks|
    ensures SliceEnd(breaks, canvasHeight, i) - Prev(breaks, 0.0, i) <= pageHeight
  {
    if i < |breaks| {
      assert breaks[i] <= Prev(breaks, 0.0, i) + pageHeight;
    }
  }

  /** A slice of at most one page height, placed at the page scale, fits the printable height. */
  lemma SliceFitsPrintableHeight(sliceHeight: real, canvasWidth: real)
    requires canvasWidth > 0.0 && sliceHeight <= CanvasPageHeight(canvasWidth)
    ensures Placed(sliceHeight, Scale(canvasWidth)) <= ContentHeight
  {
    var pageHeight, scale := CanvasPageHeight(canvasWidth), Scale(canvasWidth);
    assert pageHeight * scale == ContentHeight;
    assert (pageHeight - sliceHeight) * scale >= 0.0;
  }

  /** A planned page for an A4 export shows a non-empty slice of at most one page height that fits the printable height. */
  lemma PlannedPageFits(breaks: seq<real>, canvasWidth: real, canvasHeight: real, i: int)
    requires canvasWidth > 0.0 && BreaksInside(breaks, canvasHeight)
    requires PageCapped(breaks, 0.0, CanvasPageHeight(canvasWidth))
    requires TailFits(breaks, 0.0, canvasHeight, CanvasPageHeight(canvasWidth))
    requires 0 <= i <= |breaks|
    ensures var page := PlannedPage(breaks, canvasHeight, Scale(canvasWidth), i);
      && 0.0 < page.sourceHeight <= CanvasPageHeight(canvasWidth)
      && page.targetHeight <= ContentHeight
  {
    PlannedSliceWithinPage(breaks, canvasHeight, CanvasPageHeight(canvasWidth), i);
    var height := SliceEnd(breaks, canvasHeight, i) - Prev(breaks, 0.0, i);
    if i < |breaks| {
      assert Prev(breaks, 0.0, i) < breaks[i];
    } else {
      assert Prev(breaks, 0.0, i) == LastOf(breaks, 0.0);
    }
    SliceFitsPrintableHeight(height, canvasWidth);
  }

  /** The result of an export: nothing when the captured canvas is empty, else the pages. */
  datatype Export = NothingToExport | Document(pages: seq<Page>)

  /**
   * The page arithmetic of the export: reject an empty canvas, derive the page
   * height from the A4 printable area, plan the breaks and slice the canvas.
   * The pages are the slices at the breaks planned over the extracted boundaries.
   * For well-formed layout boxes every page shows a slice of at most one page
   * height that fits the printable height, the slices follow one another from
   * the top, and together they cover the whole canvas.
   */
  method ExportPdf(
    canvasWidth: nat, canvasHeight: nat,
    blocks: seq<Rect>, headings: seq<Rect>, contentTop: real, layoutWidth: real)
    returns (result: Export)
    requires layoutWidth > 0.0
    ensures result.NothingToExport? <==> canvasWidth == 0 || canvasHeight == 0
    ensures result.Document? ==> |result.pages| >= 1
    ensures result.Document? ==>
      var width, height := canvasWidth as real, canvasHeight as real;
      var ratio, pageHeight := Ratio(width, layoutWidth), CanvasPageHeight(width);
      var breaks := Plan(ExtractBoundaries(blocks, headings, contentTop, ratio, pageHeight), ratio, height, pageHeight, 0.0);
      result.pages == SlicesFrom(breaks, height, Scale(width), 0, 0.0)
    ensures result.Document? && WellFormedRects(blocks) && WellFormedRects(headings) ==>
      var pages := result.pages;
      && (forall i :: 0 <= i < |pages| ==>
            && pages[i].Slice?
            && 0.0 < pages[i].sourceHeight <= CanvasPageHeight(canvasWidth as real)
            && pages[i].targetHeight <= ContentHeight)
      && pages[0].sourceY == 0.0
      && (forall i :: 0 <= i < |pages| - 1 ==> pages[i].sourceY + pages[i].sourceHeight == pages[i + 1].sourceY)
      && SumHeights(pages) == canvasHeight as real
  {
    if canvasWidth == 0 || canvasHeight == 0 {
      return NothingToExport;
    }
    var width, height := canvasWidth as real, canvasHeight as real;
    var scale := Scale(width);
    var canvasPageHeight := CanvasPageHeight(width);

    var pageBreaks := FindSafePageBreaks(blocks, headings, contentTop, layoutWidth, width, height, canvasPageHeight);
    var pages := SlicePages(pageBreaks, height, scale);
    result := Document(pages);

    if WellFormedRects(blocks) && WellFormedRects(headings) {
      SlicedPlanFacts(pageBreaks, width, height, pages);
    }
  }

  /**
   * Slicing planned breaks: every page shows a non-empty slice of at most one
   * page height that fits the printable height, the slices follow one another
   * from the top, and together they cover the whole canvas.
   */
  lemma SlicedPlanFacts(breaks: seq<real>, canvasWidth: real, canvasHeight: real, pages: seq<Page>)
    requires canvasWidth > 0.0 && canvasHeight > 0.0
    requires Increasing(breaks, 0.0) && BelowCanvas(breaks, canvasHeight)
    requires PageCapped(breaks, 0.0, CanvasPageHeight(canvasWidth))
    requires TailFits(breaks, 0.0, canvasHeight, CanvasPageHeight(canvasWidth))
    requires pages == SlicesFrom(breaks, canvasHeight, Scale(canvasWidth), 0, 0.0)
    ensures forall i :: 0 <= i < |pages| ==>
      && pages[i].Slice?
      && 0.0 < pages[i].sourceHeight <= CanvasPageHeight(canvasWidth)
      && pages[i].targetHeight <= ContentHeight
    ensures pages[0].sourceY == 0.0
    ensures forall i :: 0 <= i < |pages| - 1 ==> pages[i].sourceY + pages[i].sourceHeight == pages[i + 1].sourceY
    ensures SumHeights(pages) == canvasHeight
  {
    var scale := Scale(canvasWidth);
    assert BreaksInside(breaks, canvasHeight) by {
      if breaks != [] {
        assert LastOf(breaks, 0.0) == breaks[|breaks| - 1];
      }
    }
    SlicesFromPlanned(breaks, canvasHeight, scale, 0);
    assert forall k :: 0 <= k < |pages| ==> pages[k] == PlannedPage(breaks, canvasHeight, scale, k);
    forall i | 0 <= i < |pages|
      ensures pages[i].Slice? && 0.0 < pages[i].sourceHeight <= CanvasPageHeight(canvasWidth) && pages[i].targetHeight <= ContentHeight
    {
      PlannedPageFits(breaks, canvasWidth, canvasHeight, i);
    }
    forall i | 0 <= i < |pages| - 1
      ensures pages[i].sourceY + pages[i].sourceHeight == pages[i + 1].sourceY
    {
      assert Prev(breaks, 0.0, i + 1) == SliceEnd(breaks, canvasHeight, i);
    }
    PlannedPagesCover(breaks, canvasHeight, scale, pages, |pages|);
    assert pages[..|pages|] == pages;
  }
}
