/**
 * Worked scenarios of the page-break planner, each stated over the planner's
 * own specification functions.
 */
module PlannerExamples {
  import opened Boundaries
  import opened Planner

  /** With no boundaries, a 950-unit canvas and 300-unit pages break at 300, 600 and 900. */
  lemma {:induction false} EmptyCanvasBreaks()
    ensures Plan([], 1.0, 950.0, 300.0, 0.0) == [300.0, 600.0, 900.0]
  {
    PlanUniform([], 1.0, 950.0, 300.0, 0);
    var p := Plan([], 1.0, 950.0, 300.0, 0.0);
    assert IdealLine(300.0, 0) == 0.0;
    // |p| pages of 300 end below 950 and one more would reach it: three breaks.
    IdealLineIsMultiple(300.0, |p|);
    assert |p| == 3;
    assert p[0] == IdealLine(300.0, 1) && p[1] == IdealLine(300.0, 2) && p[2] == IdealLine(300.0, 3);
  }

  /** A block from 290 to 320 straddles the first ideal break of 300 and pulls it up to 290. */
  lemma {:induction false} StraddlingBlockBreaks()
    ensures Plan([ElementBoundary(290.0, 320.0, false)], 1.0, 1000.0, 300.0, 0.0) == [290.0, 590.0, 890.0]
  {
    var bs := [ElementBoundary(290.0, 320.0, false)];
    assert Scan(bs, 300.0, 300.0, 50.0) == ScanState(290.0, true);
    assert NextBreak(bs, 1.0, 300.0, 0.0) == 290.0;
    assert Scan(bs, 590.0, 300.0, 50.0) == ScanState(590.0, false);
    assert NextBreak(bs, 1.0, 300.0, 290.0) == 590.0;
    assert Scan(bs, 890.0, 300.0, 50.0) == ScanState(890.0, false);
    assert NextBreak(bs, 1.0, 300.0, 590.0) == 890.0;
    assert Plan(bs, 1.0, 1000.0, 300.0, 890.0) == [];
  }

  /**
   * The same block made 350 tall no longer fits on a page: extraction drops it,
   * and the planner keeps the ideal breaks.
   */
  lemma {:induction false} OversizedBlockIgnored()
    ensures ExtractBoundaries([Rect(290.0, 640.0)], [], 0.0, 1.0, 300.0) == []
    ensures Plan(ExtractBoundaries([Rect(290.0, 640.0)], [], 0.0, 1.0, 300.0), 1.0, 1000.0, 300.0, 0.0) == [300.0, 600.0, 900.0]
  {
    var blocks := [Rect(290.0, 640.0)];
    assert blocks[..0] == [];
    assert BlockBoundaries(blocks, 0.0, 1.0, 300.0) == [];
    assert HeadingBoundaries([], 0.0, 1.0) == [];
    assert ExtractBoundaries(blocks, [], 0.0, 1.0, 300.0) == [];
    assert Scan([], 300.0, 300.0, 50.0) == ScanState(300.0, false);
    assert Scan([], 600.0, 300.0, 50.0) == ScanState(600.0, false);
    assert Scan([], 900.0, 300.0, 50.0) == ScanState(900.0, false);
    assert NextBreak([], 1.0, 300.0, 0.0) == 300.0;
    assert NextBreak([], 1.0, 300.0, 300.0) == 600.0;
    assert NextBreak([], 1.0, 300.0, 600.0) == 900.0;
    assert Plan([], 1.0, 1000.0, 300.0, 900.0) == [];
  }

  /**
   * A heading from 280 to 295 ends 5 units above the ideal break of 300. It is
   * kept with what follows, and the break moves up to 280, exactly when the
   * scaled keep-with-next distance `50 * ratio` exceeds those 5 units.
   */
  lemma HeadingOrphanBreak(ratio: real)
    ensures NextBreak([ElementBoundary(280.0, 295.0, true)], ratio, 300.0, 0.0) == if 50.0 * ratio > 5.0 then 280.0 else 300.0
  {
    var bs := [ElementBoundary(280.0, 295.0, true)];
    assert Scan(bs, 300.0, 300.0, 50.0 * ratio) == ScanStep(ScanState(300.0, false), bs[0], 300.0, 300.0, 50.0 * ratio);
  }

  /**
   * An orphaned heading does not win over a straddling block even when it
   * starts earlier: a heading at 280 followed by a block straddling from 285
   * gives 285, and the break then cuts through the heading.
   */
  lemma {:induction false} StraddleOverridesHeading()
    ensures NextBreak([ElementBoundary(280.0, 295.0, true), ElementBoundary(285.0, 320.0, false)], 1.0, 300.0, 0.0) == 285.0
  {
    var bs := [ElementBoundary(280.0, 295.0, true), ElementBoundary(285.0, 320.0, false)];
    assert bs[..1] == [bs[0]];
    assert [bs[0]][..0] == [];
    assert Scan([bs[0]], 300.0, 300.0, 50.0) == ScanState(280.0, true);
    assert Scan(bs, 300.0, 300.0, 50.0) == ScanState(285.0, true);
  }

  /**
   * A block straddling from 270, scanned before a heading at 280, keeps the
   * break at 270: the heading only overrides a recorded conflict when it starts
   * strictly earlier.
   */
  lemma {:induction false} StraddleBeforeHeading()
    ensures NextBreak([ElementBoundary(270.0, 320.0, false), ElementBoundary(280.0, 295.0, true)], 1.0, 300.0, 0.0) == 270.0
  {
    var bs := [ElementBoundary(270.0, 320.0, false), ElementBoundary(280.0, 295.0, true)];
    assert bs[..1] == [bs[0]];
    assert [bs[0]][..0] == [];
    assert Scan([bs[0]], 300.0, 300.0, 50.0) == ScanState(270.0, true);
    assert Scan(bs, 300.0, 300.0, 50.0) == ScanState(270.0, true);
  }

  /**
   * Nested protected blocks: a list item from 150 to 320 holds a paragraph from
   * 290 to 320. Both straddle 300 and both fit on a page, yet the break goes to
   * the paragraph's top, 290, which lies inside the list item. A break can thus
   * cut a protected block even when no fallback happened.
   */
  lemma {:induction false} NestedBlocksCut()
    ensures var bs := [ElementBoundary(150.0, 320.0, false), ElementBoundary(290.0, 320.0, false)];
      && FitsOnPage(bs[0], 300.0) && FitsOnPage(bs[1], 300.0)
      && NextBreak(bs, 1.0, 300.0, 0.0) == 290.0
      && Straddles(bs[0], 290.0)
  {
    var bs := [ElementBoundary(150.0, 320.0, false), ElementBoundary(290.0, 320.0, false)];
    assert bs[..1] == [bs[0]];
    assert [bs[0]][..0] == [];
    assert Scan([bs[0]], 300.0, 300.0, 50.0) == ScanState(150.0, true);
    assert Scan(bs, 300.0, 300.0, 50.0) == ScanState(290.0, true);
  }

  /**
   * A block straddling the ideal break but starting only 80 units below the last
   * break would leave a 80-unit page: the minimum-progress guard keeps the
   * ideal break.
   */
  lemma {:induction false} ShortPageReverted()
    ensures NextBreak([ElementBoundary(80.0, 320.0, false)], 1.0, 300.0, 0.0) == 300.0
  {
    var bs := [ElementBoundary(80.0, 320.0, false)];
    assert Scan(bs, 300.0, 300.0, 50.0) == ScanState(80.0, true);
  }
}
