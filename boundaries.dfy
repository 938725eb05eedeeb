/**
 * Boundary extraction for the PDF page-break planner: layout rectangles of the
 * rendered Markdown preview are mapped into the coordinate space of the captured
 * canvas and classified as protected blocks or headings, then ordered by their
 * top edge with a stable sort.
 *
 * The layout queries themselves (bounding rectangles of the elements that match
 * the block and heading selectors) are inputs: a sequence of rectangles per
 * category, in document order.
 */
module Boundaries {

  /** The vertical extent of an element's layout box, in layout pixels. */
  datatype Rect = Rect(top: real, bottom: real)

  /** An element's vertical extent in canvas space, and whether it is a heading. */
  datatype ElementBoundary = ElementBoundary(top: real, bottom: real, isHeading: bool)

  /** Layout boxes never have a negative height. */
  predicate WellFormedRects(rs: seq<Rect>)
  {
    forall i :: 0 <= i < |rs| ==> rs[i].top <= rs[i].bottom
  }

  predicate WellFormed(bs: seq<ElementBoundary>)
  {
    forall i :: 0 <= i < |bs| ==> bs[i].top <= bs[i].bottom
  }

  /** Canvas pixels per layout pixel. */
  function Ratio(canvasWidth: real, contentWidth: real): (ratio: real)
    requires contentWidth > 0.0
    ensures ratio * contentWidth == canvasWidth
    ensures canvasWidth > 0.0 ==> ratio > 0.0
  {
    canvasWidth / contentWidth
  }

  /** Maps a layout box, measured from the content's top edge, into canvas space. */
  function ToCanvas(r: Rect, contentTop: real, ratio: real, isHeading: bool): (b: ElementBoundary)
    ensures b.isHeading == isHeading
    ensures b.bottom - b.top == (r.bottom - r.top) * ratio
    ensures ratio >= 0.0 && r.top <= r.bottom ==> b.top <= b.bottom
  {
    var b := ElementBoundary((r.top - contentTop) * ratio, (r.bottom - contentTop) * ratio, isHeading);
    assert b.bottom - b.top == (r.bottom - r.top) * ratio;
    b
  }

  /** A block is protected when its canvas height is below one page. */
  predicate FitsOnPage(b: ElementBoundary, pageHeight: real)
  {
    b.bottom - b.top < pageHeight
  }

  /**
   * The block boundaries pushed by the first extraction loop, in document order:
   * only the blocks whose canvas height is below the page height are kept.
   */
  function BlockBoundaries(blocks: seq<Rect>, contentTop: real, ratio: real, pageHeight: real): (bs: seq<ElementBoundary>)
    ensures |bs| <= |blocks|
    ensures forall i :: 0 <= i < |bs| ==> !bs[i].isHeading
  {
    if blocks == [] then []
    else
      var n := |blocks| - 1;
      var b := ToCanvas(blocks[n], contentTop, ratio, false);
      BlockBoundaries(blocks[..n], contentTop, ratio, pageHeight) + (if FitsOnPage(b, pageHeight) then [b] else [])
  }

  /**
   * A block becomes a boundary exactly when its canvas height is below the page
   * height, and every block boundary is the canvas image of some block.
   */
  lemma {:induction false} BlockBoundariesExactly(blocks: seq<Rect>, contentTop: real, ratio: real, pageHeight: real)
    ensures var bs := BlockBoundaries(blocks, contentTop, ratio, pageHeight);
      && |bs| <= |blocks|
      && (forall i :: 0 <= i < |bs| ==> !bs[i].isHeading && FitsOnPage(bs[i], pageHeight))
      && (forall i :: 0 <= i < |bs| ==> exists j :: 0 <= j < |blocks| && bs[i] == ToCanvas(blocks[j], contentTop, ratio, false))
      && (forall j :: 0 <= j < |blocks| ==>
            (ToCanvas(blocks[j], contentTop, ratio, false) in bs <==> FitsOnPage(ToCanvas(blocks[j], contentTop, ratio, false), pageHeight)))
  {
    if blocks != [] {
      var n := |blocks| - 1;
      var front := BlockBoundaries(blocks[..n], contentTop, ratio, pageHeight);
      var b := ToCanvas(blocks[n], contentTop, ratio, false);
      var bs := BlockBoundaries(blocks, contentTop, ratio, pageHeight);
      BlockBoundariesExactly(blocks[..n], contentTop, ratio, pageHeight);
      assert bs == front + (if FitsOnPage(b, pageHeight) then [b] else []);
      forall i | 0 <= i < |bs|
        ensures exists j :: 0 <= j < |blocks| && bs[i] == ToCanvas(blocks[j], contentTop, ratio, false)
      {
        if i < |front| {
          var j :| 0 <= j < n && front[i] == ToCanvas(blocks[..n][j], contentTop, ratio, false);
          assert blocks[..n][j] == blocks[j];
        } else {
          assert bs[i] == ToCanvas(blocks[n], contentTop, ratio, false);
        }
      }
      forall j | 0 <= j < |blocks|
        ensures ToCanvas(blocks[j], contentTop, ratio, false) in bs <==> FitsOnPage(ToCanvas(blocks[j], contentTop, ratio, false), pageHeight)
      {
        if j < n {
          assert blocks[..n][j] == blocks[j];
        }
      }
    }
  }

  /** The heading boundaries pushed by the second extraction loop: every heading, in document order. */
  function HeadingBoundaries(headings: seq<Rect>, contentTop: real, ratio: real): (hs: seq<ElementBoundary>)
    ensures |hs| == |headings|
    ensures forall i :: 0 <= i < |hs| ==> hs[i].isHeading
  {
    if headings == [] then []
    else
      var n := |headings| - 1;
      HeadingBoundaries(headings[..n], contentTop, ratio) + [ToCanvas(headings[n], contentTop, ratio, true)]
  }

  /** Every heading becomes a boundary, in document order and without any height filter. */
  lemma {:induction false} HeadingBoundariesAll(headings: seq<Rect>, contentTop: real, ratio: real)
    ensures var hs := HeadingBoundaries(headings, contentTop, ratio);
      && |hs| == |headings|
      && forall i :: 0 <= i < |hs| ==> hs[i] == ToCanvas(headings[i], contentTop, ratio, true) && hs[i].isHeading
  {
    if headings != [] {
      var n := |headings| - 1;
      HeadingBoundariesAll(headings[..n], contentTop, ratio);
      assert forall i :: 0 <= i < n ==> headings[..n][i] == headings[i];
    }
  }

  /**
   * The two extraction loops: blocks that fit on a page are pushed first, then
   * every heading.
   */
  method CollectBoundaries(blocks: seq<Rect>, headings: seq<Rect>, contentTop: real, ratio: real, pageHeight: real)
    returns (boundaries: seq<ElementBoundary>)
    ensures boundaries == BlockBoundaries(blocks, contentTop, ratio, pageHeight) + HeadingBoundaries(headings, contentTop, ratio)
  {
    boundaries := [];
    for i := 0 to |blocks|
      invariant boundaries == BlockBoundaries(blocks[..i], contentTop, ratio, pageHeight)
    {
      assert blocks[..i + 1][..i] == blocks[..i] && blocks[..i + 1][i] == blocks[i];
      var boundary := ToCanvas(blocks[i], contentTop, ratio, false);
      if boundary.bottom - boundary.top < pageHeight {
        boundaries := boundaries + [boundary];
      }
    }
    assert blocks[..|blocks|] == blocks;
    ghost var blockPart := boundaries;
    for i := 0 to |headings|
      invariant boundaries == blockPart + HeadingBoundaries(headings[..i], contentTop, ratio)
    {
      assert headings[..i + 1][..i] == headings[..i] && headings[..i + 1][i] == headings[i];
      var boundary := ToCanvas(headings[i], contentTop, ratio, true);
      assert HeadingBoundaries(headings[..i + 1], contentTop, ratio)
          == HeadingBoundaries(headings[..i], contentTop, ratio) + [boundary];
      boundaries := boundaries + [boundary];
    }
    assert headings[..|headings|] == headings;
  }

  /** Scaling by a non-negative ratio keeps every extracted boundary well formed. */
  lemma {:induction false} ExtractedWellFormed(blocks: seq<Rect>, headings: seq<Rect>, contentTop: real, ratio: real, pageHeight: real)
    requires WellFormedRects(blocks) && WellFormedRects(headings) && ratio >= 0.0
    ensures WellFormed(BlockBoundaries(blocks, contentTop, ratio, pageHeight) + HeadingBoundaries(headings, contentTop, ratio))
  {
    var bs := BlockBoundaries(blocks, contentTop, ratio, pageHeight);
    var hs := HeadingBoundaries(headings, contentTop, ratio);
    var all: seq<ElementBoundary> := bs + hs;
    forall i | 0 <= i < |all|
      ensures all[i].top <= all[i].bottom
    {
      if i < |bs| {
        BlockBoundariesExactly(blocks, contentTop, ratio, pageHeight);
        var j :| 0 <= j < |blocks| && bs[i] == ToCanvas(blocks[j], contentTop, ratio, false);
      } else {
        HeadingBoundariesAll(headings, contentTop, ratio);
        assert all[i] == ToCanvas(headings[i - |bs|], contentTop, ratio, true);
      }
    }
  }

  // ---------------------------------------------------------------------------
  // The stable sort by top edge (`boundaries.sort((a, b) => a.top - b.top)`).

  predicate SortedByTop(bs: seq<ElementBoundary>)
  {
    forall i, j :: 0 <= i < j < |bs| ==> bs[i].top <= bs[j].top
  }

  /** Inserts `x` after every element whose top is not greater than its own. */
  function InsertByTop(x: ElementBoundary, bs: seq<ElementBoundary>): seq<ElementBoundary>
  {
    if bs == [] then [x]
    else if x.top < bs[0].top then [x] + bs
    else [bs[0]] + InsertByTop(x, bs[1..])
  }

  /** Inserting adds `x` and keeps every other element. */
  lemma {:induction false} InsertByTopPermutes(x: ElementBoundary, bs: seq<ElementBoundary>)
    ensures multiset(InsertByTop(x, bs)) == multiset(bs) + multiset{x}
  {
    if bs == [] {
      assert InsertByTop(x, bs) == [x];
    } else if x.top < bs[0].top {
      assert InsertByTop(x, bs) == [x] + bs;
    } else {
      var rest := InsertByTop(x, bs[1..]);
      assert InsertByTop(x, bs) == [bs[0]] + rest;
      InsertByTopPermutes(x, bs[1..]);
      assert bs == [bs[0]] + bs[1..];
      assert multiset(bs) == multiset{bs[0]} + multiset(bs[1..]);
      assert multiset([bs[0]] + rest) == multiset{bs[0]} + multiset(rest);
    }
  }

  /** An element no later than the head of a sorted sequence can go in front of it. */
  lemma ConsKeepsSorted(x: ElementBoundary, bs: seq<ElementBoundary>)
    requires SortedByTop(bs) && (bs != [] ==> x.top <= bs[0].top)
    ensures SortedByTop([x] + bs)
  {
    var r := [x] + bs;
    forall i, j | 0 <= i < j < |r|
      ensures r[i].top <= r[j].top
    {
      assert r[j] == bs[j - 1];
      if i > 0 {
        assert r[i] == bs[i - 1];
      }
    }
  }

  lemma {:induction false} InsertKeepsSorted(x: ElementBoundary, bs: seq<ElementBoundary>)
    requires SortedByTop(bs)
    ensures SortedByTop(InsertByTop(x, bs))
    ensures InsertByTop(x, bs)[0] == if bs == [] || x.top < bs[0].top then x else bs[0]
  {
    if bs == [] {
    } else if x.top < bs[0].top {
      ConsKeepsSorted(x, bs);
    } else {
      var tail := bs[1..];
      assert SortedByTop(tail);
      InsertKeepsSorted(x, tail);
      var rest := InsertByTop(x, tail);
      assert bs[0].top <= rest[0].top by {
        if tail != [] {
          assert tail[0] == bs[1];
        }
      }
      ConsKeepsSorted(bs[0], rest);
    }
  }

  /** The ascending, stable ordering by top edge that the planner scans. */
  function SortByTop(bs: seq<ElementBoundary>): (r: seq<ElementBoundary>)
    ensures SortedByTop(r)
    ensures multiset(r) == multiset(bs)
    ensures |r| == |bs|
  {
    if bs == [] then []
    else
      var n := |bs| - 1;
      assert bs == bs[..n] + [bs[n]];
      InsertKeepsSorted(bs[n], SortByTop(bs[..n]));
      InsertByTopPermutes(bs[n], SortByTop(bs[..n]));
      var r := InsertByTop(bs[n], SortByTop(bs[..n]));
      assert |r| == |multiset(r)|;
      r
  }

  /** The subsequence of the elements whose top edge is exactly `t`. */
  function WithTop(bs: seq<ElementBoundary>, t: real): seq<ElementBoundary>
  {
    if bs == [] then []
    else (if bs[0].top == t then [bs[0]] else []) + WithTop(bs[1..], t)
  }

  lemma {:induction false} WithTopConcat(a: seq<ElementBoundary>, b: seq<ElementBoundary>, t: real)
    ensures WithTop(a + b, t) == WithTop(a, t) + WithTop(b, t)
  {
    if a == [] {
      assert a + b == b;
    } else {
      var head := if a[0].top == t then [a[0]] else [];
      assert (a + b)[0] == a[0] && (a + b)[1..] == a[1..] + b;
      WithTopConcat(a[1..], b, t);
      assert WithTop(a + b, t) == head + (WithTop(a[1..], t) + WithTop(b, t));
      assert WithTop(a, t) == head + WithTop(a[1..], t);
    }
  }

  lemma {:induction false} WithTopNone(bs: seq<ElementBoundary>, t: real)
    requires forall i :: 0 <= i < |bs| ==> bs[i].top != t
    ensures WithTop(bs, t) == []
  {
    if bs != [] {
      WithTopNone(bs[1..], t);
    }
  }

  lemma WithTopPrepend(x: ElementBoundary, bs: seq<ElementBoundary>, t: real)
    ensures WithTop([x] + bs, t) == (if x.top == t then [x] else []) + WithTop(bs, t)
  {
    assert ([x] + bs)[1..] == bs;
  }

  lemma {:induction false} WithTopInsert(x: ElementBoundary, bs: seq<ElementBoundary>, t: real)
    requires SortedByTop(bs)
    ensures WithTop(InsertByTop(x, bs), t) == WithTop(bs, t) + (if x.top == t then [x] else [])
  {
    var own := if x.top == t then [x] else [];
    if bs == [] {
      assert InsertByTop(x, bs) == [x] + [];
      WithTopPrepend(x, [], t);
    } else if x.top < bs[0].top {
      assert InsertByTop(x, bs) == [x] + bs;
      WithTopPrepend(x, bs, t);
      if x.top == t {
        assert forall i :: 0 <= i < |bs| ==> bs[0].top <= bs[i].top;
        WithTopNone(bs, t);
      }
    } else {
      var head := if bs[0].top == t then [bs[0]] else [];
      var rest := InsertByTop(x, bs[1..]);
      assert InsertByTop(x, bs) == [bs[0]] + rest;
      assert SortedByTop(bs[1..]);
      WithTopInsert(x, bs[1..], t);
      WithTopPrepend(bs[0], rest, t);
      assert bs == [bs[0]] + bs[1..];
      WithTopPrepend(bs[0], bs[1..], t);
      assert head + (WithTop(bs[1..], t) + own) == (head + WithTop(bs[1..], t)) + own;
    }
  }

  /**
   * Stability: among the elements with any one top edge, the sort keeps the
   * order of the input. In particular a block and a heading with the same top
   * stay in push order, the block first.
   */
  lemma {:induction false} SortByTopStable(bs: seq<ElementBoundary>, t: real)
    ensures WithTop(SortByTop(bs), t) == WithTop(bs, t)
  {
    if bs != [] {
      var n := |bs| - 1;
      var front, x := bs[..n], bs[n];
      assert bs == front + [x];
      assert SortByTop(bs) == InsertByTop(x, SortByTop(front));
      SortByTopStable(front, t);
      WithTopInsert(x, SortByTop(front), t);
      WithTopConcat(front, [x], t);
      assert WithTop([x], t) == if x.top == t then [x] else [] by {
        assert [x][1..] == [];
      }
    }
  }

  /** Sorting keeps exactly the same boundaries, so it keeps them well formed. */
  lemma SortKeepsWellFormed(bs: seq<ElementBoundary>)
    requires WellFormed(bs)
    ensures WellFormed(SortByTop(bs))
  {
    var r := SortByTop(bs);
    forall i | 0 <= i < |r|
      ensures r[i].top <= r[i].bottom
    {
      assert r[i] in multiset(bs);
    }
  }

  /** The boundary list the planner works on: collected, then sorted by top. */
  function ExtractBoundaries(blocks: seq<Rect>, headings: seq<Rect>, contentTop: real, ratio: real, pageHeight: real): (bs: seq<ElementBoundary>)
    ensures SortedByTop(bs)
    ensures multiset(bs) == multiset(BlockBoundaries(blocks, contentTop, ratio, pageHeight) + HeadingBoundaries(headings, contentTop, ratio))
    ensures WellFormedRects(blocks) && WellFormedRects(headings) && ratio >= 0.0 ==> WellFormed(bs)
  {
    var collected := BlockBoundaries(blocks, contentTop, ratio, pageHeight) + HeadingBoundaries(headings, contentTop, ratio);
    if WellFormedRects(blocks) && WellFormedRects(headings) && ratio >= 0.0 then
      ExtractedWellFormed(blocks, headings, contentTop, ratio, pageHeight);
      SortKeepsWellFormed(collected);
      SortByTop(collected)
    else
      SortByTop(collected)
  }
}
