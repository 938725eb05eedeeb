# Page breaks of the bm.md PDF export

bm.md exports the rendered Markdown preview as an A4 PDF. It captures the
preview as one tall canvas. It then cuts the canvas into page-sized slices,
trying to place each cut where it does not split a paragraph, list item, table
row, code block or image, and does not leave a heading alone at the bottom of a
page.

This project models that export in Dafny and proves the properties the
planner and the slicer promise. It has four modules:

- `Boundaries` (`boundaries.dfy`) maps the layout boxes of protected blocks
  and headings into canvas space. It keeps only the blocks shorter than a
  page, and orders everything by top edge with a stable sort.
- `Planner` (`planner.dfy`) is the break planner. The specification functions
  are `ScanStep`/`Scan`, a fold over the sorted boundaries; `Commit`, the zero
  fallback and the minimum-progress guard; `NextBreak`; and `Plan`, the whole
  sequence of breaks. The imperative planner (`ScanBoundaries`, `PlanBreaks`,
  `FindSafePageBreaks`) keeps the source's loops and is proved to compute `Plan`.
- `PlannerExamples` (`planner_examples.dfy`) holds worked scenarios stated
  over the specification functions.
- `PdfLayout` (`pdf_layout.dfy`) holds the A4 arithmetic (210 × 297 mm,
  8 mm padding) and the page-slicing loop with its `continue`. `ExportPdf`
  combines the two with the planner.

Coordinates are exact reals. The canvas width and height are natural numbers.

A reader might expect three things of the planner that the code does not do.
The model follows the code:

- A break is not guaranteed to miss every protected block that fits on a page,
  even when no fallback happened. With nested blocks the planner moves the
  break to the top of the latest-starting straddling block, which can lie
  inside an enclosing block (`PlannerExamples.NestedBlocksCut`). What does
  hold is a restricted form: when no two boundaries overlap, a break that is
  not the ideal break cuts through no boundary
  (`Planner.PlanCutsOnlyAtIdealBreaks`).
- An orphaned heading never wins over a straddling block, even when the heading
  starts earlier: the block moves the break to its own top, which can cut the
  heading (`PlannerExamples.StraddleOverridesHeading`). Over boundaries sorted
  by top whose straddlers are shorter than a page, the break is decided by the
  straddlers alone (`Planner.StraddleWinsOverHeadings`).
- The minimum-progress guard asks for strictly more than 100 canvas units past
  the previous break, not "at least" 100. The zero fallback fires only on a
  safe break of exactly 0. It never decides anything on its own
  (`Planner.ZeroFallbackSubsumed`).

## Model

| member | source | states |
|---|---|---|
| Boundaries.Ratio | src/lib/actions/export-pdf.ts:24 | the layout-to-canvas ratio times the layout width is the canvas width; it is positive for a non-empty canvas |
| Boundaries.ToCanvas | src/lib/actions/export-pdf.ts:32-34 | a mapped box keeps its category, its height is scaled by the ratio, and a non-negative ratio keeps top above bottom |
| Boundaries.BlockBoundaries | src/lib/actions/export-pdf.ts:31-38 | the first extraction loop as a function: the canvas images of the blocks that fit on a page, in document order; there are at most as many as blocks and none is a heading (the exact filter is `BlockBoundariesExactly`) |
| Boundaries.HeadingBoundaries | src/lib/actions/export-pdf.ts:40-47 | the second extraction loop as a function: one heading boundary per heading, in document order (each element's image is `HeadingBoundariesAll`) |
| Boundaries.CollectBoundaries | src/lib/actions/export-pdf.ts:29-47 | the two extraction loops push the kept blocks in document order, then every heading |
| Boundaries.BlockBoundariesExactly | src/lib/actions/export-pdf.ts:31-38 | a block becomes a boundary if and only if its canvas height is below the page height; every block boundary is a non-heading image of some block |
| Boundaries.HeadingBoundariesAll | src/lib/actions/export-pdf.ts:40-47 | every heading becomes a heading boundary, in document order, with no height filter |
| Boundaries.ExtractedWellFormed | src/lib/actions/export-pdf.ts:31-47 | boxes with top above bottom, scaled by a non-negative ratio, give boundaries with top above bottom |
| Boundaries.SortByTop | src/lib/actions/export-pdf.ts:49 | the sort result is ordered by top edge and is a permutation of its input |
| Boundaries.SortByTopStable | src/lib/actions/export-pdf.ts:49 | among boundaries with the same top edge the sort keeps the input order |
| Boundaries.SortKeepsWellFormed | src/lib/actions/export-pdf.ts:49 | sorting keeps every boundary well formed |
| Boundaries.ExtractBoundaries | src/lib/actions/export-pdf.ts:29-49 | the planner's input is sorted by top, is a permutation of the collected boundaries, and is well formed for well-formed boxes |
| Planner.Max | src/lib/actions/export-pdf.ts:61 | the maximum is one of its arguments and is at least both |
| Planner.ScanStep | src/lib/actions/export-pdf.ts:58-71 | one boundary's effect on the scan, straddle rule then heading rule: a boundary in no conflict leaves the scan unchanged; one in conflict records a conflict; the safe break becomes the old one, the boundary's top or 0 |
| Planner.Scan | src/lib/actions/export-pdf.ts:54-72 | the inner loop as a fold of `ScanStep` from the ideal break and no conflict; with no conflict recorded the safe break is the ideal break (the full characterization is `ScanFacts`) |
| Planner.ScanFacts | src/lib/actions/export-pdf.ts:54-72 | a scan records a conflict if and only if some boundary straddles the ideal break or is an orphaned heading; with no conflict the safe break stays ideal; else it is 0 or the top of a conflicting boundary; for well-formed boundaries and a non-negative ideal break it never lies below the ideal break |
| Planner.ScanConflictFree | src/lib/actions/export-pdf.ts:54-72 | a scan over boundaries that do not conflict leaves the ideal break and records no conflict |
| Planner.Commit | src/lib/actions/export-pdf.ts:74-81 | the zero fallback and the minimum-progress guard: the committed break is the ideal break, or the scanned safe break when it lies more than 100 units past the last break |
| Planner.ZeroFallbackSubsumed | src/lib/actions/export-pdf.ts:74-81 | from a non-negative last break, the zero fallback followed by the minimum-progress guard equals the guard alone |
| Planner.NextBreak | src/lib/actions/export-pdf.ts:51-84 | a committed break is more than 100 units past the last one or exactly one page past it; for well-formed boundaries it is at most one page past it; it is the ideal break or the top of a conflicting boundary |
| Planner.Plan | src/lib/actions/export-pdf.ts:51-85 | the planning loop as a recursive function: breaks are committed only while the rest of the canvas does not fit on a page; each break is `NextBreak` of the one before (`PlanStep`) and its properties are `PlanFacts` |
| Planner.PlanStep | src/lib/actions/export-pdf.ts:53-85 | the k-th planned break is the break committed after the (k-1)-th, or after the starting break for k = 0 |
| Planner.RemainingDrops | src/lib/actions/export-pdf.ts:53-85 | each committed break uses up at least one minimum step of the canvas still to plan, so the planning loop terminates |
| Planner.PlanFacts | src/lib/actions/export-pdf.ts:51-85 | planned breaks strictly increase, make the minimum progress, leave a tail of at most one page; for well-formed boundaries no page exceeds the page height and every break lies inside the canvas |
| Planner.IdealLineIsMultiple | src/lib/actions/export-pdf.ts:84 | advancing one page height at a time from the top, the m-th line lies at m page heights |
| Planner.PlanUniform | src/lib/actions/export-pdf.ts:51-85 | when no boundary conflicts with any page-aligned line, the breaks are exactly the multiples of the page height below the canvas height |
| Planner.StraddleScan | src/lib/actions/export-pdf.ts:57-63 | over blocks only, a straddler starting less than a page above the ideal break moves the safe break to at least the top of every straddler, within one page above the ideal break; otherwise it stays ideal |
| Planner.StraddleRule | src/lib/actions/export-pdf.ts:57-81 | over blocks only, the committed break is the top of the latest-starting straddler, or the ideal break when every straddler starts within 100 units of the last break |
| Planner.HeadingScan | src/lib/actions/export-pdf.ts:65-71 | with no straddler, the safe break is the top of the earliest orphaned heading, or the unchanged ideal break when no heading is orphaned |
| Planner.HeadingRule | src/lib/actions/export-pdf.ts:65-81 | with no straddler and some orphaned heading, the committed break is the top of the earliest orphaned heading, or the ideal break when some orphaned heading starts within 100 units of the last break |
| Planner.StraddleAlwaysWins | src/lib/actions/export-pdf.ts:57-71 | over boundaries sorted by top whose straddlers are shorter than a page, the safe break is the ideal break or some boundary's top; when some boundary straddles, a conflict is recorded and the safe break is the top of the latest-starting straddler, whatever headings are scanned before or after it |
| Planner.StraddleWinsOverHeadings | src/lib/actions/export-pdf.ts:57-81 | under the same conditions, with some straddler, the committed break is the top of the latest-starting straddler, or the ideal break when every straddler starts within 100 units of the last break; orphaned headings play no part |
| Planner.SeparateBreakCutsNothing | src/lib/actions/export-pdf.ts:57-81 | for well-formed boundaries of which no two overlap, a committed break other than the ideal break straddles no boundary |
| Planner.PlanCutsOnlyAtIdealBreaks | src/lib/actions/export-pdf.ts:51-85 | for well-formed boundaries of which no two overlap, every planned break that is not exactly one page below the previous break straddles no boundary |
| Planner.ScanBoundaries | src/lib/actions/export-pdf.ts:54-72 | the inner loop computes the scan specification |
| Planner.PlanBreaks | src/lib/actions/export-pdf.ts:51-87 | the planning loop computes the plan specification; its breaks increase, make the minimum progress, leave a tail of at most a page and, for well-formed boundaries, stay within a page of each other and inside the canvas |
| Planner.FindSafePageBreaks | src/lib/actions/export-pdf.ts:15-88 | the planner returns the plan over the extracted, sorted boundaries; no break when a page covers the canvas; the breaks increase, make the minimum progress, leave a tail of at most one page and, for well-formed boxes, stay within a page of each other and inside the canvas |
| PlannerExamples.EmptyCanvasBreaks | src/lib/actions/export-pdf.ts:51-85 | with no boundaries, a 950-unit canvas and 300-unit pages break at 300, 600 and 900 |
| PlannerExamples.StraddlingBlockBreaks | src/lib/actions/export-pdf.ts:57-62 | a block from 290 to 320 moves the first break to 290; the next breaks are 590 and 890 |
| PlannerExamples.OversizedBlockIgnored | src/lib/actions/export-pdf.ts:35-37 | a block 350 units tall is not extracted, and the breaks stay at 300, 600 and 900 |
| PlannerExamples.HeadingOrphanBreak | src/lib/actions/export-pdf.ts:65-71 | a heading from 280 to 295 moves the break at 300 to 280 exactly when the scaled keep distance exceeds 5 units |
| PlannerExamples.StraddleOverridesHeading | src/lib/actions/export-pdf.ts:57-71 | a block straddling from 285, scanned after an orphaned heading at 280, moves the break to 285 |
| PlannerExamples.StraddleBeforeHeading | src/lib/actions/export-pdf.ts:57-71 | a heading at 280 scanned after a block straddling from 270 leaves the break at 270 |
| PlannerExamples.NestedBlocksCut | src/lib/actions/export-pdf.ts:57-62 | with a block from 290 nested in one from 150, both to 320, the break goes to 290, inside the outer block |
| PlannerExamples.ShortPageReverted | src/lib/actions/export-pdf.ts:78-81 | a block straddling from 80 would leave an 80-unit page, so the ideal break of 300 is kept |
| PdfLayout.Scale | src/lib/actions/export-pdf.ts:122 | the scale is positive and maps the canvas width onto the 194 mm printable width |
| PdfLayout.CanvasPageHeight | src/lib/actions/export-pdf.ts:115-123 | the canvas page height is positive and, placed at the scale, fills exactly the 273 mm printable height |
| PdfLayout.SlicesFrom | src/lib/actions/export-pdf.ts:140-181 | slicing gives one page per remaining break plus one, and every slice shown is non-empty and placed at the scale |
| PdfLayout.SlicePages | src/lib/actions/export-pdf.ts:140-181 | the slicing loop, with its `continue` that leaves the previous break in place, computes the slices from the top of the canvas |
| PdfLayout.SkippedBreakKeepsPrevious | src/lib/actions/export-pdf.ts:150-155 | a break above the previous one yields a blank page, and the next slice starts from the previous break |
| PdfLayout.SlicesFromPlanned | src/lib/actions/export-pdf.ts:140-181 | for increasing breaks inside the canvas no page is blank: each page shows the canvas from the previous break to its own break, the last one to the bottom |
| PdfLayout.PlannedPagesCover | src/lib/actions/export-pdf.ts:140-181 | the slices of the first pages add up to where the next page starts, and all of them add up to the canvas height |
| PdfLayout.PlannedSliceWithinPage | src/lib/actions/export-pdf.ts:150-152 | for page-capped breaks with a tail of at most a page, no slice is taller than one page |
| PdfLayout.SliceFitsPrintableHeight | src/lib/actions/export-pdf.ts:157 | a slice no taller than the canvas page height, placed at the scale, fits the printable height |
| PdfLayout.PlannedPageFits | src/lib/actions/export-pdf.ts:150-157 | for planned breaks, each page shows a non-empty slice of at most one canvas page height that fits the printable height |
| PdfLayout.SlicedPlanFacts | src/lib/actions/export-pdf.ts:140-181 | slicing planned breaks gives only non-blank pages, each at most a page tall and fitting the printable height, following one another from the top and adding up to the canvas height |
| PdfLayout.ExportPdf | src/lib/actions/export-pdf.ts:110-181 | an empty canvas exports nothing; otherwise the pages are the slices at the breaks planned over the extracted boundaries, with the A4 page height and scale, and there is at least one page; for well-formed boxes every page shows a slice at most one page tall that fits the printable height, and the slices run from the top to the bottom of the canvas |

## Left out

- The DOM is not modelled. Element queries, selectors and bounding rectangles are inputs: one sequence of boxes per category, in document order, plus the content's top edge and width.
- Capturing the preview (snapdom), drawing onto canvases, JPEG encoding, jsPDF calls, the background colour and saving the file are not modelled. A page is described by the slice it shows and the height it is placed at.
- The error raised when a 2D context is missing is not modelled. It depends on the browser.
- IEEE-754 rounding is not modelled; arithmetic is exact. Assigning the slice height to `pageCanvas.height` truncates it to an integer, and that is not modelled either.
- Planner.FindSafePageBreaks: requires a positive content width. A zero width gives an infinite or undefined ratio in the source, which reals cannot represent.
- Planner.FindSafePageBreaks: requires a positive page height. The export always passes one. With a page height of 0 or less that is below the canvas height, the source loop would not terminate: every break reverts to an ideal break that never moves down.
- Boundaries.SortByTop: the sort is the JavaScript runtime's stable sort, which is not part of this model. It is specified as an insertion sort.
- The single-export flag, the toasts, the try/catch/finally and the console logging are not modelled. Neither are src/lib/actions/preview.ts, src/lib/actions/export-image.ts or the button and entry components: they hold no page arithmetic.
