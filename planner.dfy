/**
 * The page-break planner. Given the boundaries sorted by top edge, it walks down
 * the canvas one page at a time: the ideal break is one page below the last
 * committed break; a scan over the boundaries pulls it up when a protected block
 * straddles it or a heading would be left at the bottom of the page; a
 * minimum-progress guard discards adjustments that would leave a page of 100
 * canvas units or less.
 *
 * `ScanStep`, `Scan`, `Commit`, `NextBreak` and `Plan` are the specification;
 * `FindSafePageBreaks` is the imperative planner, proved to compute `Plan`.
 */
module Planner {
  import opened Boundaries

  /** A shortened page must be longer than this, in canvas units. */
  const MinPageProgress: real := 100.0

  /** A heading ending less than this many layout pixels above the ideal break is kept with what follows. */
  const HeadingKeepDistance: real := 50.0

  /** The variables of one scan over the boundaries. */
  datatype ScanState = ScanState(safeBreak: real, foundConflict: bool)

  /** `Math.max` of two numbers. */
  function Max(a: real, b: real): (m: real)
    ensures m >= a && m >= b
    ensures m == a || m == b
  {
    if a >= b then a else b
  }

  /** The boundary spans the ideal break line. */
  predicate Straddles(b: ElementBoundary, idealBreak: real)
  {
    b.top < idealBreak && b.bottom > idealBreak
  }

  /** A heading that ends at or just above the ideal break, within the keep-with-next distance. */
  predicate Orphaned(b: ElementBoundary, idealBreak: real, threshold: real)
  {
    b.isHeading && b.bottom <= idealBreak && idealBreak - b.bottom < threshold
  }

  predicate InConflict(b: ElementBoundary, idealBreak: real, threshold: real)
  {
    Straddles(b, idealBreak) || Orphaned(b, idealBreak, threshold)
  }

  predicate ConflictFree(bs: seq<ElementBoundary>, idealBreak: real, threshold: real)
  {
    forall i :: 0 <= i < |bs| ==> !InConflict(bs[i], idealBreak, threshold)
  }

  /**
   * The effect of one boundary on the scan: first the straddle rule, whose guard
   * reads the current safe break and whose `Math.max` treats a still-unmoved safe
   * break as 0; then the heading-orphan rule, which only overrides when no
   * conflict is recorded yet or when the heading starts strictly earlier.
   */
  function ScanStep(st: ScanState, b: ElementBoundary, idealBreak: real, pageHeight: real, threshold: real): (r: ScanState)
    ensures !InConflict(b, idealBreak, threshold) ==> r == st
    ensures InConflict(b, idealBreak, threshold) ==> r.foundConflict
    ensures r.safeBreak == st.safeBreak || r.safeBreak == b.top || r.safeBreak == 0.0
  {
    var afterStraddle :=
      if Straddles(b, idealBreak) then
        ScanState(
          if b.top > st.safeBreak - pageHeight
          then Max(if st.safeBreak == idealBreak then 0.0 else st.safeBreak, b.top)
          else st.safeBreak,
          true)
      else st;
    if Orphaned(b, idealBreak, threshold) && (!afterStraddle.foundConflict || b.top < afterStraddle.safeBreak)
    then ScanState(b.top, true)
    else afterStraddle
  }

  /** The scan over the boundaries in order, starting from the ideal break and no conflict. */
  function Scan(bs: seq<ElementBoundary>, idealBreak: real, pageHeight: real, threshold: real): (st: ScanState)
    ensures !st.foundConflict ==> st.safeBreak == idealBreak
  {
    if bs == [] then ScanState(idealBreak, false)
    else ScanStep(Scan(bs[..|bs| - 1], idealBreak, pageHeight, threshold), bs[|bs| - 1], idealBreak, pageHeight, threshold)
  }

  /**
   * What a scan can produce: a conflict is recorded exactly when some boundary is
   * in conflict with the ideal break; the safe break is the ideal break, 0, or the
   * top of a conflicting boundary; and it never lies below the ideal break.
   */
  lemma {:induction false} ScanFacts(bs: seq<ElementBoundary>, idealBreak: real, pageHeight: real, threshold: real)
    ensures var st := Scan(bs, idealBreak, pageHeight, threshold);
      && (st.foundConflict <==> exists i :: 0 <= i < |bs| && InConflict(bs[i], idealBreak, threshold))
      && (!st.foundConflict ==> st.safeBreak == idealBreak)
      && (st.safeBreak == idealBreak || st.safeBreak == 0.0 ||
          exists i :: 0 <= i < |bs| && InConflict(bs[i], idealBreak, threshold) && st.safeBreak == bs[i].top)
      && (WellFormed(bs) && idealBreak >= 0.0 ==> st.safeBreak <= idealBreak)
  {
    if bs != [] {
      var n := |bs| - 1;
      var front := bs[..n];
      ScanFacts(front, idealBreak, pageHeight, threshold);
      assert forall i :: 0 <= i < n ==> front[i] == bs[i];
      var st := Scan(front, idealBreak, pageHeight, threshold);
      var st' := Scan(bs, idealBreak, pageHeight, threshold);
      assert st' == ScanStep(st, bs[n], idealBreak, pageHeight, threshold);
      if st'.foundConflict && !st.foundConflict {
        assert InConflict(bs[n], idealBreak, threshold);
      }
      if st'.safeBreak != st.safeBreak && st'.safeBreak != 0.0 {
        assert InConflict(bs[n], idealBreak, threshold) && st'.safeBreak == bs[n].top;
      }
      if WellFormed(bs) {
        assert bs[n].top <= bs[n].bottom;
        assert WellFormed(front);
      }
    }
  }

  /** The scan leaves a conflict-free ideal break untouched. */
  lemma ScanConflictFree(bs: seq<ElementBoundary>, idealBreak: real, pageHeight: real, threshold: real)
    requires ConflictFree(bs, idealBreak, threshold)
    ensures Scan(bs, idealBreak, pageHeight, threshold) == ScanState(idealBreak, false)
  {
    ScanFacts(bs, idealBreak, pageHeight, threshold);
  }

  /**
   * The zero fallback and the minimum-progress guard that follow the scan: a
   * break that collapsed to 0 after a conflict, or that would leave a page of at
   * most `MinPageProgress`, is replaced by the ideal break.
   */
  function Commit(st: ScanState, idealBreak: real, lastBreak: real): (b: real)
    ensures b == idealBreak || (b == st.safeBreak && b > lastBreak + MinPageProgress)
  {
    var safeBreak := if st.foundConflict && st.safeBreak == 0.0 then idealBreak else st.safeBreak;
    if safeBreak <= lastBreak + MinPageProgress then idealBreak else safeBreak
  }

  /**
   * The zero fallback never decides anything on its own: once the last break is
   * not negative, committing is the minimum-progress guard alone.
   */
  lemma ZeroFallbackSubsumed(st: ScanState, idealBreak: real, lastBreak: real)
    requires lastBreak >= 0.0
    ensures Commit(st, idealBreak, lastBreak) == if st.safeBreak <= lastBreak + MinPageProgress then idealBreak else st.safeBreak
  {
  }

  /** The break committed after `lastBreak`. */
  function NextBreak(bs: seq<ElementBoundary>, ratio: real, pageHeight: real, lastBreak: real): (b: real)
    ensures b > lastBreak + MinPageProgress || b == lastBreak + pageHeight
    ensures WellFormed(bs) && lastBreak + pageHeight >= 0.0 ==> b <= lastBreak + pageHeight
    ensures b == lastBreak + pageHeight ||
      exists i :: 0 <= i < |bs| && InConflict(bs[i], lastBreak + pageHeight, HeadingKeepDistance * ratio) && b == bs[i].top
  {
    var idealBreak := lastBreak + pageHeight;
    ScanFacts(bs, idealBreak, pageHeight, HeadingKeepDistance * ratio);
    Commit(Scan(bs, idealBreak, pageHeight, HeadingKeepDistance * ratio), idealBreak, lastBreak)
  }

  lemma NextBreakCommitsScan(bs: seq<ElementBoundary>, ratio: real, pageHeight: real, lastBreak: real)
    ensures var idealBreak := lastBreak + pageHeight;
      NextBreak(bs, ratio, pageHeight, lastBreak) == Commit(Scan(bs, idealBreak, pageHeight, HeadingKeepDistance * ratio), idealBreak, lastBreak)
  {
  }

  /** The smallest advance a committed break makes over the previous one. */
  function MinStep(pageHeight: real): real
  {
    if pageHeight < MinPageProgress then pageHeight else MinPageProgress
  }

  /** The termination measure of the planning loop: the rest of the canvas, in minimum steps. */
  function Remaining(canvasHeight: real, pageHeight: real, lastBreak: real): real
    requires pageHeight > 0.0
  {
    (canvasHeight - lastBreak) / MinStep(pageHeight)
  }

  lemma RemainingDrops(canvasHeight: real, pageHeight: real, lastBreak: real, nextBreak: real)
    requires pageHeight > 0.0 && lastBreak + pageHeight < canvasHeight
    requires nextBreak > lastBreak + MinPageProgress || nextBreak == lastBreak + pageHeight
    ensures 0.0 <= Remaining(canvasHeight, pageHeight, lastBreak)
    ensures Remaining(canvasHeight, pageHeight, nextBreak) <= Remaining(canvasHeight, pageHeight, lastBreak) - 1.0
  {
    var d := MinStep(pageHeight);
    var x, y := canvasHeight - lastBreak, canvasHeight - nextBreak;
    var q, r := x / d, y / d;
    assert q * d == x && r * d == y;
    var gap := q - 1.0 - r;
    assert gap * d == x - d - y;
  }

  /** The breaks committed after `lastBreak`, until the rest of the canvas fits on one page. */
  function Plan(bs: seq<ElementBoundary>, ratio: real, canvasHeight: real, pageHeight: real, lastBreak: real): (p: seq<real>)
    requires pageHeight > 0.0
    ensures p != [] ==> lastBreak + pageHeight < canvasHeight
    decreases Remaining(canvasHeight, pageHeight, lastBreak)
  {
    if lastBreak + pageHeight < canvasHeight then
      var b := NextBreak(bs, ratio, pageHeight, lastBreak);
      RemainingDrops(canvasHeight, pageHeight, lastBreak, b);
      [b] + Plan(bs, ratio, canvasHeight, pageHeight, b)
    else []
  }

  /** While the rest of the canvas does not fit on one page, the plan commits the next break and goes on from it. */
  lemma PlanUnfold(bs: seq<ElementBoundary>, ratio: real, canvasHeight: real, pageHeight: real, lastBreak: real)
    requires pageHeight > 0.0 && lastBreak + pageHeight < canvasHeight
    ensures var b := NextBreak(bs, ratio, pageHeight, lastBreak);
      Plan(bs, ratio, canvasHeight, pageHeight, lastBreak) == [b] + Plan(bs, ratio, canvasHeight, pageHeight, b)
  {
  }

  /**
   * While the rest of the canvas does not fit on one page, committing the next
   * break to a prefix of a plan gives a longer prefix of the same plan.
   */
  lemma PlanExtend(bs: seq<ElementBoundary>, ratio: real, canvasHeight: real, pageHeight: real, breaks: seq<real>, plan: seq<real>)
    requires pageHeight > 0.0 && LastOf(breaks, 0.0) + pageHeight < canvasHeight
    requires breaks + Plan(bs, ratio, canvasHeight, pageHeight, LastOf(breaks, 0.0)) == plan
    ensures var b := NextBreak(bs, ratio, pageHeight, LastOf(breaks, 0.0));
      && LastOf(breaks + [b], 0.0) == b
      && (breaks + [b]) + Plan(bs, ratio, canvasHeight, pageHeight, b) == plan
  {
    var b := NextBreak(bs, ratio, pageHeight, LastOf(breaks, 0.0));
    var rest := Plan(bs, ratio, canvasHeight, pageHeight, b);
    PlanUnfold(bs, ratio, canvasHeight, pageHeight, LastOf(breaks, 0.0));
    assert (breaks + [b]) + rest == breaks + ([b] + rest);
  }

  // ---------------------------------------------------------------------------
  // Properties of a sequence of breaks, each measured against the one before it
  // (`start` before the first).

  function Prev(breaks: seq<real>, start: real, i: int): real
    requires 0 <= i <= |breaks|
  {
    if i == 0 then start else breaks[i - 1]
  }

  function LastOf(breaks: seq<real>, start: real): real
  {
    Prev(breaks, start, |breaks|)
  }

  predicate Increasing(breaks: seq<real>, start: real)
  {
    forall i :: 0 <= i < |breaks| ==> Prev(breaks, start, i) < breaks[i]
  }

  /** Every page is either longer than `MinPageProgress` or exactly a full page. */
  predicate MinimumProgress(breaks: seq<real>, start: real, pageHeight: real)
  {
    forall i :: 0 <= i < |breaks| ==>
      breaks[i] > Prev(breaks, start, i) + MinPageProgress || breaks[i] == Prev(breaks, start, i) + pageHeight
  }

  /** No page is longer than a full page. */
  predicate PageCapped(breaks: seq<real>, start: real, pageHeight: real)
  {
    forall i :: 0 <= i < |breaks| ==> breaks[i] <= Prev(breaks, start, i) + pageHeight
  }

  /** What remains of the canvas after the last break fits on one page. */
  predicate TailFits(breaks: seq<real>, start: real, canvasHeight: real, pageHeight: real)
  {
    LastOf(breaks, start) + pageHeight >= canvasHeight
  }

  predicate BelowCanvas(breaks: seq<real>, canvasHeight: real)
  {
    forall i :: 0 <= i < |breaks| ==> breaks[i] < canvasHeight
  }

  /**
   * The planned breaks increase, make the minimum progress, leave a tail of at
   * most one page and, for well-formed boundaries, never make a page longer
   * than `pageHeight` nor reach the bottom of the canvas.
   */
  lemma {:induction false} PlanFacts(bs: seq<ElementBoundary>, ratio: real, canvasHeight: real, pageHeight: real, lastBreak: real)
    requires pageHeight > 0.0
    ensures var p := Plan(bs, ratio, canvasHeight, pageHeight, lastBreak);
      && Increasing(p, lastBreak)
      && MinimumProgress(p, lastBreak, pageHeight)
      && TailFits(p, lastBreak, canvasHeight, pageHeight)
      && (WellFormed(bs) && lastBreak >= 0.0 ==> PageCapped(p, lastBreak, pageHeight) && BelowCanvas(p, canvasHeight))
    decreases Remaining(canvasHeight, pageHeight, lastBreak)
  {
    if lastBreak + pageHeight < canvasHeight {
      var b := NextBreak(bs, ratio, pageHeight, lastBreak);
      RemainingDrops(canvasHeight, pageHeight, lastBreak, b);
      PlanFacts(bs, ratio, canvasHeight, pageHeight, b);
      PlanUnfold(bs, ratio, canvasHeight, pageHeight, lastBreak);
      var rest := Plan(bs, ratio, canvasHeight, pageHeight, b);
      PrependIndices(b, rest, lastBreak);
      PrependIncreasing(b, rest, lastBreak);
      PrependMinimumProgress(b, rest, lastBreak, pageHeight);
      if WellFormed(bs) && lastBreak >= 0.0 {
        PrependPageCapped(b, rest, lastBreak, pageHeight);
        PrependBelowCanvas(b, rest, canvasHeight);
      }
    }
  }

  /** Putting a break in front of a sequence shifts its indices by one; the new break is measured against `lastBreak`. */
  lemma PrependIndices(b: real, rest: seq<real>, lastBreak: real)
    ensures Prev([b] + rest, lastBreak, 0) == lastBreak && ([b] + rest)[0] == b
    ensures forall i :: 1 <= i <= |rest| ==> ([b] + rest)[i] == rest[i - 1]
    ensures forall i :: 1 <= i <= |rest| ==> Prev([b] + rest, lastBreak, i) == Prev(rest, b, i - 1)
    ensures LastOf([b] + rest, lastBreak) == LastOf(rest, b)
  {
  }

  lemma PrependIncreasing(b: real, rest: seq<real>, lastBreak: real)
    requires lastBreak < b && Increasing(rest, b)
    ensures Increasing([b] + rest, lastBreak)
  {
    PrependIndices(b, rest, lastBreak);
  }

  lemma PrependMinimumProgress(b: real, rest: seq<real>, lastBreak: real, pageHeight: real)
    requires b > lastBreak + MinPageProgress || b == lastBreak + pageHeight
    requires MinimumProgress(rest, b, pageHeight)
    ensures MinimumProgress([b] + rest, lastBreak, pageHeight)
  {
    PrependIndices(b, rest, lastBreak);
  }

  lemma PrependPageCapped(b: real, rest: seq<real>, lastBreak: real, pageHeight: real)
    requires b <= lastBreak + pageHeight && PageCapped(rest, b, pageHeight)
    ensures PageCapped([b] + rest, lastBreak, pageHeight)
  {
    PrependIndices(b, rest, lastBreak);
  }

  lemma PrependBelowCanvas(b: real, rest: seq<real>, canvasHeight: real)
    requires b < canvasHeight && BelowCanvas(rest, canvasHeight)
    ensures BelowCanvas([b] + rest, canvasHeight)
  {
    assert forall i :: 1 <= i <= |rest| ==> ([b] + rest)[i] == rest[i - 1];
  }

  /** The ideal break lines of a page-aligned run: `m` full pages from the top. */
  function IdealLine(pageHeight: real, m: nat): real
  {
    if m == 0 then 0.0 else IdealLine(pageHeight, m - 1) + pageHeight
  }

  /** The `m`-th page-aligned line is `m` times the page height. */
  lemma {:induction false} IdealLineIsMultiple(pageHeight: real, m: nat)
    ensures IdealLine(pageHeight, m) == (m as real) * pageHeight
  {
    if m > 0 {
      IdealLineIsMultiple(pageHeight, m - 1);
      assert ((m - 1) as real) * pageHeight + pageHeight == (m as real) * pageHeight;
    }
  }

  /**
   * When no boundary conflicts with any page-aligned line, the breaks are the
   * page-aligned lines themselves: `pageHeight, 2 * pageHeight, ...` strictly
   * below the canvas height.
   */
  lemma {:induction false} PlanUniform(bs: seq<ElementBoundary>, ratio: real, canvasHeight: real, pageHeight: real, k: nat)
    requires pageHeight > 0.0
    requires forall m: nat :: k < m ==> ConflictFree(bs, IdealLine(pageHeight, m), HeadingKeepDistance * ratio)
    ensures var p := Plan(bs, ratio, canvasHeight, pageHeight, IdealLine(pageHeight, k));
      && (forall i :: 0 <= i < |p| ==> p[i] == IdealLine(pageHeight, k + i + 1))
      && IdealLine(pageHeight, k + |p|) + pageHeight >= canvasHeight
      && (|p| > 0 ==> IdealLine(pageHeight, k + |p|) < canvasHeight)
    decreases Remaining(canvasHeight, pageHeight, IdealLine(pageHeight, k))
  {
    var last := IdealLine(pageHeight, k);
    var p := Plan(bs, ratio, canvasHeight, pageHeight, last);
    if last + pageHeight < canvasHeight {
      var next := IdealLine(pageHeight, k + 1);
      assert NextBreak(bs, ratio, pageHeight, last) == next by {
        assert next == last + pageHeight;
        assert ConflictFree(bs, next, HeadingKeepDistance * ratio);
        ScanConflictFree(bs, next, pageHeight, HeadingKeepDistance * ratio);
        NextBreakCommitsScan(bs, ratio, pageHeight, last);
      }
      RemainingDrops(canvasHeight, pageHeight, last, next);
      PlanUniform(bs, ratio, canvasHeight, pageHeight, k + 1);
      PlanUnfold(bs, ratio, canvasHeight, pageHeight, last);
      var rest := Plan(bs, ratio, canvasHeight, pageHeight, next);
      assert p == [next] + rest;
      forall i | 0 <= i < |p|
        ensures p[i] == IdealLine(pageHeight, k + i + 1)
      {
        if i > 0 {
          assert p[i] == rest[i - 1];
          assert (k + 1) + (i - 1) + 1 == k + i + 1;
        }
      }
      assert k + 1 + |rest| == k + |p|;
    }
  }

  /**
   * The straddle rule, for a scan over protected blocks only: once some block
   * that straddles the ideal break starts less than a page above it, the safe
   * break is pulled below the ideal break to at least the top of every
   * straddling block; otherwise it stays at the ideal break.
   */
  lemma {:induction false} StraddleScan(bs: seq<ElementBoundary>, idealBreak: real, pageHeight: real, threshold: real)
    requires idealBreak > 0.0
    requires forall i :: 0 <= i < |bs| ==> !bs[i].isHeading
    ensures var st := Scan(bs, idealBreak, pageHeight, threshold);
      if exists i :: 0 <= i < |bs| && Straddles(bs[i], idealBreak) && bs[i].top > idealBreak - pageHeight then
        && 0.0 <= st.safeBreak < idealBreak
        && st.safeBreak > idealBreak - pageHeight
        && forall i :: 0 <= i < |bs| && Straddles(bs[i], idealBreak) ==> bs[i].top <= st.safeBreak
      else
        st.safeBreak == idealBreak
  {
    if bs != [] {
      var n := |bs| - 1;
      var front := bs[..n];
      assert forall i :: 0 <= i < n ==> front[i] == bs[i];
      StraddleScan(front, idealBreak, pageHeight, threshold);
    }
  }

  /**
   * The straddle rule at the level of a committed break, for protected blocks
   * only: when a straddling block starts after the last break, the break moves
   * up to the top of the latest-starting straddling block, unless that would
   * leave a page of at most `MinPageProgress`, in which case the ideal break is
   * kept.
   */
  lemma StraddleRule(bs: seq<ElementBoundary>, ratio: real, pageHeight: real, lastBreak: real)
    requires pageHeight > 0.0 && lastBreak >= 0.0
    requires forall i :: 0 <= i < |bs| ==> !bs[i].isHeading
    requires exists i :: 0 <= i < |bs| && Straddles(bs[i], lastBreak + pageHeight) && bs[i].top > lastBreak
    ensures var b := NextBreak(bs, ratio, pageHeight, lastBreak);
      if b < lastBreak + pageHeight then
        && (exists i :: 0 <= i < |bs| && Straddles(bs[i], lastBreak + pageHeight) && b == bs[i].top)
        && forall i :: 0 <= i < |bs| && Straddles(bs[i], lastBreak + pageHeight) ==> bs[i].top <= b
      else
        && b == lastBreak + pageHeight
        && forall i :: 0 <= i < |bs| && Straddles(bs[i], lastBreak + pageHeight) ==> bs[i].top <= lastBreak + MinPageProgress
  {
    var ideal := lastBreak + pageHeight;
    var threshold := HeadingKeepDistance * ratio;
    StraddleScan(bs, ideal, pageHeight, threshold);
    ScanFacts(bs, ideal, pageHeight, threshold);
  }

  /**
   * The heading-orphan rule, for a scan in which no block straddles the ideal
   * break: the safe break is the top of the earliest-starting orphaned heading,
   * or the ideal break when no heading is orphaned.
   */
  lemma {:induction false} HeadingScan(bs: seq<ElementBoundary>, idealBreak: real, pageHeight: real, threshold: real)
    requires forall i :: 0 <= i < |bs| ==> !Straddles(bs[i], idealBreak)
    ensures var st := Scan(bs, idealBreak, pageHeight, threshold);
      if exists i :: 0 <= i < |bs| && Orphaned(bs[i], idealBreak, threshold) then
        && st.foundConflict
        && (exists i :: 0 <= i < |bs| && Orphaned(bs[i], idealBreak, threshold) && st.safeBreak == bs[i].top)
        && forall i :: 0 <= i < |bs| && Orphaned(bs[i], idealBreak, threshold) ==> st.safeBreak <= bs[i].top
      else
        st == ScanState(idealBreak, false)
  {
    if bs != [] {
      var n := |bs| - 1;
      var front := bs[..n];
      assert forall i :: 0 <= i < n ==> front[i] == bs[i];
      HeadingScan(front, idealBreak, pageHeight, threshold);
    }
  }

  /**
   * The heading-orphan rule at the level of a committed break: with no block
   * straddling the ideal break and some heading orphaned, the break moves up to
   * the top of the earliest orphaned heading, unless that would leave a page of
   * at most `MinPageProgress`, in which case the ideal break is kept.
   */
  lemma HeadingRule(bs: seq<ElementBoundary>, ratio: real, pageHeight: real, lastBreak: real)
    requires lastBreak >= 0.0
    requires forall i :: 0 <= i < |bs| ==> !Straddles(bs[i], lastBreak + pageHeight)
    requires exists i :: 0 <= i < |bs| && Orphaned(bs[i], lastBreak + pageHeight, HeadingKeepDistance * ratio)
    ensures var b, ideal, threshold := NextBreak(bs, ratio, pageHeight, lastBreak), lastBreak + pageHeight, HeadingKeepDistance * ratio;
      if forall i :: 0 <= i < |bs| && Orphaned(bs[i], ideal, threshold) ==> bs[i].top > lastBreak + MinPageProgress then
        && (exists i :: 0 <= i < |bs| && Orphaned(bs[i], ideal, threshold) && b == bs[i].top)
        && forall i :: 0 <= i < |bs| && Orphaned(bs[i], ideal, threshold) ==> b <= bs[i].top
      else
        b == ideal
  {
    HeadingScan(bs, lastBreak + pageHeight, pageHeight, HeadingKeepDistance * ratio);
  }

  /**
   * Precedence of the two rules over sorted boundaries: once a block straddling
   * the ideal break has been scanned, no heading can override it, because every
   * later heading starts at or below it; and a straddling block scanned after an
   * orphaned heading takes the `Math.max` with that heading's top. So the safe
   * break is the top of the latest-starting straddler whenever there is one,
   * provided every straddler is shorter than a page.
   */
  lemma {:induction false} StraddleAlwaysWins(bs: seq<ElementBoundary>, idealBreak: real, pageHeight: real, threshold: real)
    requires pageHeight > 0.0 && idealBreak >= pageHeight
    requires SortedByTop(bs)
    requires forall i :: 0 <= i < |bs| && Straddles(bs[i], idealBreak) ==> bs[i].bottom - bs[i].top < pageHeight
    ensures var st := Scan(bs, idealBreak, pageHeight, threshold);
      && (st.safeBreak == idealBreak || exists i :: 0 <= i < |bs| && st.safeBreak == bs[i].top)
      && ((exists i :: 0 <= i < |bs| && Straddles(bs[i], idealBreak)) ==>
            && st.foundConflict
            && (exists i :: 0 <= i < |bs| && Straddles(bs[i], idealBreak) && st.safeBreak == bs[i].top)
            && forall i :: 0 <= i < |bs| && Straddles(bs[i], idealBreak) ==> bs[i].top <= st.safeBreak)
  {
    if bs != [] {
      var n := |bs| - 1;
      var front := bs[..n];
      assert forall i :: 0 <= i < n ==> front[i] == bs[i];
      StraddleAlwaysWins(front, idealBreak, pageHeight, threshold);
      var st := Scan(front, idealBreak, pageHeight, threshold);
      assert st.safeBreak == idealBreak || st.safeBreak <= bs[n].top;
      StraddleStep(st, bs[n], idealBreak, pageHeight, threshold);
      assert Scan(bs, idealBreak, pageHeight, threshold) == ScanStep(st, bs[n], idealBreak, pageHeight, threshold);
    }
  }

  /** One step of `StraddleAlwaysWins`: the boundary scanned starts at or below the safe break unless that is still ideal. */
  lemma StraddleStep(st: ScanState, b: ElementBoundary, idealBreak: real, pageHeight: real, threshold: real)
    requires pageHeight > 0.0 && idealBreak >= pageHeight
    requires Straddles(b, idealBreak) ==> b.bottom - b.top < pageHeight
    requires st.safeBreak == idealBreak || st.safeBreak <= b.top
    ensures var r := ScanStep(st, b, idealBreak, pageHeight, threshold);
      && (Straddles(b, idealBreak) ==> r == ScanState(b.top, true))
      && (!Straddles(b, idealBreak) ==> r == st || (r == ScanState(b.top, true) && (!st.foundConflict || b.top < st.safeBreak)))
  {
  }

  /**
   * The precedence at the level of a committed break, for sorted boundaries
   * whose straddlers are shorter than a page: when some boundary straddles the
   * ideal break, orphaned headings play no part; the break is the top of the
   * latest-starting straddler, or the ideal break when every straddler starts
   * within `MinPageProgress` of the last break.
   */
  lemma StraddleWinsOverHeadings(bs: seq<ElementBoundary>, ratio: real, pageHeight: real, lastBreak: real)
    requires pageHeight > 0.0 && lastBreak >= 0.0
    requires SortedByTop(bs)
    requires forall i :: 0 <= i < |bs| && Straddles(bs[i], lastBreak + pageHeight) ==> bs[i].bottom - bs[i].top < pageHeight
    requires exists i :: 0 <= i < |bs| && Straddles(bs[i], lastBreak + pageHeight)
    ensures var b := NextBreak(bs, ratio, pageHeight, lastBreak);
      if b < lastBreak + pageHeight then
        && (exists i :: 0 <= i < |bs| && Straddles(bs[i], lastBreak + pageHeight) && b == bs[i].top)
        && forall i :: 0 <= i < |bs| && Straddles(bs[i], lastBreak + pageHeight) ==> bs[i].top <= b
      else
        && b == lastBreak + pageHeight
        && forall i :: 0 <= i < |bs| && Straddles(bs[i], lastBreak + pageHeight) ==> bs[i].top <= lastBreak + MinPageProgress
  {
    var ideal := lastBreak + pageHeight;
    StraddleAlwaysWins(bs, ideal, pageHeight, HeadingKeepDistance * ratio);
    NextBreakCommitsScan(bs, ratio, pageHeight, lastBreak);
  }

  /** No two boundaries overlap: of any two, one ends at or above the top of the other. */
  predicate Separate(bs: seq<ElementBoundary>)
  {
    forall i, j :: 0 <= i < |bs| && 0 <= j < |bs| && i != j ==> bs[i].bottom <= bs[j].top || bs[j].bottom <= bs[i].top
  }

  /**
   * For well-formed boundaries of which no two overlap, a committed break cuts
   * through a boundary only when it is the ideal break: any other break is the
   * top of some boundary, which no other boundary can straddle.
   */
  lemma SeparateBreakCutsNothing(bs: seq<ElementBoundary>, ratio: real, pageHeight: real, lastBreak: real)
    requires WellFormed(bs) && Separate(bs)
    ensures var b := NextBreak(bs, ratio, pageHeight, lastBreak);
      b != lastBreak + pageHeight ==> forall j :: 0 <= j < |bs| ==> !Straddles(bs[j], b)
  {
    var b := NextBreak(bs, ratio, pageHeight, lastBreak);
    if b != lastBreak + pageHeight {
      var i :| 0 <= i < |bs| && InConflict(bs[i], lastBreak + pageHeight, HeadingKeepDistance * ratio) && b == bs[i].top;
      forall j | 0 <= j < |bs|
        ensures !Straddles(bs[j], b)
      {
        if j != i {
          assert bs[i].bottom <= bs[j].top || bs[j].bottom <= bs[i].top;
        }
      }
    }
  }

  /** Every planned break is the break committed after the one before it. */
  lemma {:induction false} PlanStep(bs: seq<ElementBoundary>, ratio: real, canvasHeight: real, pageHeight: real, lastBreak: real, k: nat)
    requires pageHeight > 0.0 && k < |Plan(bs, ratio, canvasHeight, pageHeight, lastBreak)|
    ensures var p := Plan(bs, ratio, canvasHeight, pageHeight, lastBreak);
      p[k] == NextBreak(bs, ratio, pageHeight, Prev(p, lastBreak, k))
    decreases k
  {
    var b := NextBreak(bs, ratio, pageHeight, lastBreak);
    PlanUnfold(bs, ratio, canvasHeight, pageHeight, lastBreak);
    var rest := Plan(bs, ratio, canvasHeight, pageHeight, b);
    PrependIndices(b, rest, lastBreak);
    if k > 0 {
      PlanStep(bs, ratio, canvasHeight, pageHeight, b, k - 1);
    }
  }

  /**
   * For well-formed boundaries of which no two overlap, every planned break that
   * is not a full page below the previous one cuts through no boundary.
   */
  lemma PlanCutsOnlyAtIdealBreaks(bs: seq<ElementBoundary>, ratio: real, canvasHeight: real, pageHeight: real, lastBreak: real)
    requires pageHeight > 0.0 && WellFormed(bs) && Separate(bs)
    ensures var p := Plan(bs, ratio, canvasHeight, pageHeight, lastBreak);
      forall k :: 0 <= k < |p| && p[k] != Prev(p, lastBreak, k) + pageHeight ==>
        forall j :: 0 <= j < |bs| ==> !Straddles(bs[j], p[k])
  {
    var p := Plan(bs, ratio, canvasHeight, pageHeight, lastBreak);
    forall k | 0 <= k < |p|
      ensures p[k] != Prev(p, lastBreak, k) + pageHeight ==> forall j :: 0 <= j < |bs| ==> !Straddles(bs[j], p[k])
    {
      PlanStep(bs, ratio, canvasHeight, pageHeight, lastBreak, k);
      SeparateBreakCutsNothing(bs, ratio, pageHeight, Prev(p, lastBreak, k));
    }
  }

  // ---------------------------------------------------------------------------
  // The imperative planner.

  /**
   * One scan over the sorted boundaries against an ideal break: the inner loop
   * of the planner, which moves the safe break and records conflicts.
   */
  method ScanBoundaries(boundaries: seq<ElementBoundary>, idealBreak: real, pageHeight: real, ratio: real)
    returns (safeBreak: real, foundConflict: bool)
    ensures ScanState(safeBreak, foundConflict) == Scan(boundaries, idealBreak, pageHeight, HeadingKeepDistance * ratio)
  {
    safeBreak := idealBreak;
    foundConflict := false;
    for i := 0 to |boundaries|
      invariant ScanState(safeBreak, foundConflict) == Scan(boundaries[..i], idealBreak, pageHeight, HeadingKeepDistance * ratio)
    {
      assert boundaries[..i + 1][..i] == boundaries[..i] && boundaries[..i + 1][i] == boundaries[i];
      var top, bottom, isHeading := boundaries[i].top, boundaries[i].bottom, boundaries[i].isHeading;
      if top < idealBreak && bottom > idealBreak {
        foundConflict := true;
        if top > safeBreak - pageHeight {
          safeBreak := Max(if safeBreak == idealBreak then 0.0 else safeBreak, top);
        }
      }
      var headingThreshold := HeadingKeepDistance * ratio;
      if isHeading && bottom <= idealBreak && idealBreak - bottom < headingThreshold {
        if !foundConflict || top < safeBreak {
          safeBreak := top;
          foundConflict := true;
        }
      }
    }
    assert boundaries[..|boundaries|] == boundaries;
  }

  /**
   * The planning loop over sorted boundaries: scan against the ideal break,
   * fall back from a collapsed or too-short page, commit, and move the ideal
   * break one page below the committed one.
   */
  method PlanBreaks(boundaries: seq<ElementBoundary>, ratio: real, canvasHeight: real, pageHeight: real)
    returns (breaks: seq<real>)
    requires pageHeight > 0.0
    ensures breaks == Plan(boundaries, ratio, canvasHeight, pageHeight, 0.0)
    ensures Increasing(breaks, 0.0)
    ensures MinimumProgress(breaks, 0.0, pageHeight)
    ensures TailFits(breaks, 0.0, canvasHeight, pageHeight)
    ensures WellFormed(boundaries) ==> PageCapped(breaks, 0.0, pageHeight) && BelowCanvas(breaks, canvasHeight)
  {
    ghost var spec := Plan(boundaries, ratio, canvasHeight, pageHeight, 0.0);
    breaks := [];
    var idealBreak := pageHeight;
    while idealBreak < canvasHeight
      invariant idealBreak == LastOf(breaks, 0.0) + pageHeight
      invariant breaks + Plan(boundaries, ratio, canvasHeight, pageHeight, LastOf(breaks, 0.0)) == spec
      decreases Remaining(canvasHeight, pageHeight, LastOf(breaks, 0.0))
    {
      var safeBreak, foundConflict := ScanBoundaries(boundaries, idealBreak, pageHeight, ratio);
      ghost var scanned := ScanState(safeBreak, foundConflict);
      if foundConflict && safeBreak == 0.0 {
        safeBreak := idealBreak;
      }
      var lastBreak := if |breaks| > 0 then breaks[|breaks| - 1] else 0.0;
      if safeBreak <= lastBreak + MinPageProgress {
        safeBreak := idealBreak;
      }
      assert lastBreak == LastOf(breaks, 0.0) && safeBreak == NextBreak(boundaries, ratio, pageHeight, lastBreak) by {
        assert safeBreak == Commit(scanned, idealBreak, lastBreak);
        NextBreakCommitsScan(boundaries, ratio, pageHeight, lastBreak);
      }
      RemainingDrops(canvasHeight, pageHeight, lastBreak, safeBreak);
      PlanExtend(boundaries, ratio, canvasHeight, pageHeight, breaks, spec);
      breaks := breaks + [safeBreak];
      idealBreak := safeBreak + pageHeight;
    }
    assert Plan(boundaries, ratio, canvasHeight, pageHeight, LastOf(breaks, 0.0)) == [];
    PlanFacts(boundaries, ratio, canvasHeight, pageHeight, 0.0);
  }

  /**
   * The whole planner: extract the boundaries, sort them by top edge, plan the
   * breaks.
   */
  method FindSafePageBreaks(
    blocks: seq<Rect>, headings: seq<Rect>, contentTop: real, contentWidth: real,
    canvasWidth: real, canvasHeight: real, pageHeight: real)
    returns (breaks: seq<real>)
    requires contentWidth > 0.0 && pageHeight > 0.0
    ensures var ratio := Ratio(canvasWidth, contentWidth);
      breaks == Plan(ExtractBoundaries(blocks, headings, contentTop, ratio, pageHeight), ratio, canvasHeight, pageHeight, 0.0)
    ensures Increasing(breaks, 0.0)
    ensures MinimumProgress(breaks, 0.0, pageHeight)
    ensures TailFits(breaks, 0.0, canvasHeight, pageHeight)
    ensures pageHeight >= canvasHeight ==> breaks == []
    ensures canvasWidth >= 0.0 && WellFormedRects(blocks) && WellFormedRects(headings) ==>
      PageCapped(breaks, 0.0, pageHeight) && BelowCanvas(breaks, canvasHeight)
  {
    var ratio := canvasWidth / contentWidth;
    var boundaries := CollectBoundaries(blocks, headings, contentTop, ratio, pageHeight);
    boundaries := SortByTop(boundaries);
    assert canvasWidth >= 0.0 ==> ratio >= 0.0;
    breaks := PlanBreaks(boundaries, ratio, canvasHeight, pageHeight);
  }
}
