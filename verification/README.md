# DEPagingScrollView in Dafny

This is a model of the core of `DEPagingScrollView`. That is a UIKit scroll view that lays out pages end to end along one axis and reports two things to a paging delegate:
- how much of each page is visible after every scroll;
- which page the view settled on when scrolling ends.

The model has five modules:

- `Geometry`: sizes, frames, and pages projected onto the scroll axis. It also defines sums of lengths and what it means for pages to *tile* the axis (start at 0, no gaps, no overlaps).
- `PageLayout`: the layout pass run when a data source is attached (`configureScrollView`).
  - Every page is placed at the running total of the scroll-axis lengths before it, at 0 on the cross axis, with exactly the supplied size.
  - The content size is derived from the totals.
- `Tracker`: the index lookup (`viewInfoGetter`). It subtracts page lengths from the scroll offset and finds one of two pages:
  - the *selected* page, whose leading edge is at or past the offset;
  - the *first visible* page, whose trailing edge is.
- `VisibilityReport`: the visibility loop of `scrollViewDidScroll`, which reports `(index, visibility)` events from the first visible page on. It exists in two forms:
  - the loop as written (`WalkAsWritten`, bounded by fuel because it need not terminate);
  - the corrected loop (`Walk`), which stops after the last page and is used everywhere else.
- `Paging`: the view as a state machine.
  - Operations: attaching a data source, scrolling, the end-of-scroll check with its de-duplication against `lastSelectedPage`, and the three end-of-scroll callbacks.
  - `Run` applies a whole session of such actions.

Lengths are `real`. The platform's scroll offset and viewport length along the scroll axis are parameters. The delegate is reduced to which of its two optional callbacks it implements.

Three behaviours of the code worth knowing:
- `lastSelectedPage` starts at 0 rather than at an "unset" value. So settling on page 0 right after the first data source is attached reports nothing.
- The content size is the total of the page lengths on the scroll axis and their *average* on the cross axis. It is not an average on the scroll axis.
- With no pages the source divides 0 by 0 for the cross axis; it does not fall back to 0. The model gives no content size in that case.

## Model

| member | source | states |
|---|---|---|
| PageLayout.Place | PagedScrollView/DEPagingScrollView.swift:99-114 | Each frame placed by the loop sits at the running total of the scroll-axis lengths before it and at 0 on the cross axis, with the supplied size; the final totals are the sums of all widths and heights |
| PageLayout.Configure | PagedScrollView/DEPagingScrollView.swift:88-120 | Exactly one frame per supplied size, because earlier pages are discarded. Page i's leading edge is the sum of the lengths of pages 0..i-1, its cross origin is 0, and its size is the supplied one. For N > 0 the content is the total length on the scroll axis, and the cross size times N equals the total cross size (an average); for N = 0 there is no content size |
| PageLayout.ConfiguredPagesTile | PagedScrollView/DEPagingScrollView.swift:104-113 | Configured pages are contiguous: page i+1 starts where page i ends, the first starts at 0, and their lengths are the supplied scroll-axis lengths |
| PageLayout.ContentEndsAtLastPage | PagedScrollView/DEPagingScrollView.swift:112-118 | With at least one page, the scroll-axis content size equals the trailing edge of the last page |
| Tracker.FindPage | PagedScrollView/DEPagingScrollView.swift:213-232 | The lookup returns the smallest index that passes its test: offset minus the lengths before it is at most 0 (selected), or offset minus the lengths up to and including it is at most 0 (first visible). It returns nothing exactly when no index passes |
| Tracker.SelectedIsFirstLeadingEdgeAtOffset | PagedScrollView/DEPagingScrollView.swift:204-232 | On tiled pages the selected page is the first whose leading edge is at or past the offset; there is none exactly when every leading edge is before the offset, which includes the case of no pages |
| Tracker.FirstVisibleIsFirstTrailingEdgeAtOffset | PagedScrollView/DEPagingScrollView.swift:208-232 | On tiled pages the first visible page is the first whose trailing edge is at or past the offset; there is none exactly when every trailing edge is before the offset |
| Tracker.FirstVisibleNotAfterSelected | PagedScrollView/DEPagingScrollView.swift:204-232 | With non-negative lengths, whenever a page is selected a first visible page exists, and its index is at most the selected one |
| Tracker.LookupWithinContent | PagedScrollView/DEPagingScrollView.swift:213-232 | With non-negative lengths and some pages, a first visible page exists if and only if the offset is at most the total length; past the total nothing is selected |
| VisibilityReport.VisibilityOf | PagedScrollView/DEPagingScrollView.swift:152-163 | Bounds on a page's visibility. A page cut by the offset gets a value in [0, 1). A page at or past the offset gets a value in (0, 1] while viewport remains, and exactly 1 if and only if the remaining viewport covers it |
| VisibilityReport.UsedIsExtentTimesVisibility | PagedScrollView/DEPagingScrollView.swift:156-167 | What one event subtracts from the remaining viewport, page length times visibility, is the length of the page actually in view: the part past the offset, or the remaining viewport capped at the page length |
| VisibilityReport.WalkAsWritten | PagedScrollView/DEPagingScrollView.swift:150-175 | The loop as written, bounded by fuel: event k names page index + k while that page exists and the last page after that, so the loop advances one page per event and then repeats the last page |
| VisibilityReport.WalkAsWrittenVisibilities | PagedScrollView/DEPagingScrollView.swift:150-167 | Each event of the loop as written carries the visibility of the page it names, computed for the viewport length left before it (the starting viewport minus what the earlier events used up) |
| VisibilityReport.WalkAsWrittenStops | PagedScrollView/DEPagingScrollView.swift:150-175 | When the loop as written finishes, the remaining viewport was positive before every event, and what the events used up reaches the viewport |
| VisibilityReport.WalkAsWrittenInUnit | PagedScrollView/DEPagingScrollView.swift:152-163 | On tiled pages, starting from a page not wholly before the offset, every visibility the loop as written reports lies in [0, 1] |
| VisibilityReport.Walk | PagedScrollView/DEPagingScrollView.swift:150-175 | The corrected loop reports consecutive pages from the given one, at most one event per page |
| VisibilityReport.WalkVisibilities | PagedScrollView/DEPagingScrollView.swift:150-167 | Each event of the corrected loop carries the visibility of the page it names, computed for the viewport length left before it (the starting viewport minus what the earlier events used up) |
| VisibilityReport.WalkStops | PagedScrollView/DEPagingScrollView.swift:150-175 | In the corrected loop the remaining viewport was positive before every event, and the loop ends with the viewport used up or right after the last page |
| VisibilityReport.WalkInUnit | PagedScrollView/DEPagingScrollView.swift:152-163 | On tiled pages, every visibility the corrected loop reports lies in [0, 1], and every one after the first is positive |
| VisibilityReport.WalkCoverage | PagedScrollView/DEPagingScrollView.swift:148-175 | On tiled pages the lengths the corrected loop accounts for add up to at least the smaller of the viewport and the content ahead of the offset, and never more than that content |
| VisibilityReport.WalkAgreesWithAsWritten | PagedScrollView/DEPagingScrollView.swift:150-175 | When the corrected loop uses up the whole viewport, the loop as written produces exactly the same events |
| VisibilityReport.ScrollEventsWellFormed | PagedScrollView/DEPagingScrollView.swift:143-175 | One scroll report on tiled pages starts at the first visible page and names consecutive pages, with visibilities in [0, 1] (positive after the first). It accounts for at least the viewport or all content ahead, whichever is shorter, and never for more than that content |
| VisibilityReport.StuckOnLastPage | PagedScrollView/DEPagingScrollView.swift:169-174 | With the offset at the content end, the last page has visibility 0 and uses up none of the viewport, and the loop as written runs out of any fuel |
| VisibilityReport.NeverEndsAtContentEnd | PagedScrollView/DEPagingScrollView.swift:143-175 | With the offset at the content end and a non-empty viewport, the report as written never finishes, while the corrected one is the last page once, with visibility 0 |
| VisibilityReport.LastPageReemitted | PagedScrollView/DEPagingScrollView.swift:169-174 | One page of length 100 at offset 0 with a viewport of 250 is reported three times by the loop as written: fully visible twice, then half visible |
| VisibilityReport.LastPageReportedOnce | PagedScrollView/DEPagingScrollView.swift:169-174 | For the same page, offset and viewport, the corrected loop reports the page once, fully visible, and stops |
| VisibilityReport.ThreePagesPartlyScrolled | PagedScrollView/DEPagingScrollView.swift:143-175 | Three pages of length 200 at offset 250 with a viewport of 200 give page 1 at 0.75 and page 2 at 0.25 |
| Paging.Init | PagedScrollView/DEPagingScrollView.swift:41-44 | A fresh view has no pages, so no offset selects a page or makes one visible; page 0 counts as the page last reported |
| Paging.SetDataSource | PagedScrollView/DEPagingScrollView.swift:47-50 | Clearing the data source changes nothing. Attaching one replaces the pages with one tiled page per supplied size, with positive lengths if the sizes are positive, and keeps the page last reported and the delegate |
| Paging.StopScrolling | PagedScrollView/DEPagingScrollView.swift:125-133 | A page is reported if and only if there is a delegate that takes page reports, a page is selected, and it differs from the page last reported. With any delegate and a selected page, that page becomes the page last reported; nothing else changes |
| Paging.EndDecelerating | PagedScrollView/DEPagingScrollView.swift:180-184 | The end of deceleration always runs the end-of-scroll check |
| Paging.EndScrollingAnimation | PagedScrollView/DEPagingScrollView.swift:186-190 | The end of a scroll animation always runs the end-of-scroll check |
| Paging.EndDragging | PagedScrollView/DEPagingScrollView.swift:192-198 | The end of a drag runs the end-of-scroll check only when no deceleration follows; otherwise nothing changes |
| Paging.DidScroll | PagedScrollView/DEPagingScrollView.swift:135-178 | Without a delegate taking visibility reports the view is unchanged and nothing is reported, and the offset is not recorded either. Otherwise the offset is recorded and the report starts at the first visible page and names only existing pages |
| Paging.SettleReportsLeadingPage | PagedScrollView/DEPagingScrollView.swift:125-133 | On a tiled view, a page reported at the end of scrolling is the first page whose leading edge is at or past the offset, and is not the page last reported |
| Paging.SettleIsIdempotent | PagedScrollView/DEPagingScrollView.swift:125-133 | A second end-of-scroll check at the same offset reports nothing and changes nothing |
| Paging.FirstPageSilentUntilLeft | PagedScrollView/DEPagingScrollView.swift:43 | After the first data source is attached, settling at or before the first page reports nothing; after a settle that reports another page, settling there again reports page 0 |
| Paging.SettleTriggersAgree | PagedScrollView/DEPagingScrollView.swift:180-198 | A drag followed by deceleration settles once, when deceleration ends, with the same result as a drag without deceleration; an animation settles the same way |
| Paging.ScrollDoesNotAffectSettle | PagedScrollView/DEPagingScrollView.swift:135-178 | Scrolling never changes what a later end-of-scroll check reports or records |
| Paging.DidScrollReportWellFormed | PagedScrollView/DEPagingScrollView.swift:143-177 | On a tiled view with positive lengths and a listening delegate, a scroll report names consecutive pages with visibilities in [0, 1], positive after the first, and covers the viewport or the content ahead, whichever is shorter, but never more than that content |
| Paging.Apply | PagedScrollView/DEPagingScrollView.swift:123-198 | No single action changes the delegate or breaks tiling or positive lengths. A reported page differs from the page last reported and becomes it; under a delegate that takes page reports, the page last reported changes only by reporting |
| Paging.Run | PagedScrollView/DEPagingScrollView.swift:123-198 | A session keeps the delegate, tiling and positive lengths, and yields one visibility report per action |
| Paging.RunNeverRepeatsDisplay | PagedScrollView/DEPagingScrollView.swift:125-133 | Under a delegate that takes page reports, a session never reports the same page twice in a row, and its first report differs from the page last reported before it. Afterwards the page last reported is the last page it reported |

## Left out

- UIKit plumbing is not modelled:
  - `addSubview`, view identity, the `UIView` objects and `contentSize` as a platform property. A page is its frame only.
  - The forwarding of scroll-view delegate calls to `_scrollViewDelegate` and the `super.delegate = self` wiring (lines 53-67, 136, 181, 187, 193). These are pass-through calls into code outside the model.
  - The initialisers (lines 69-82), which set paging mode only.
- The `respondsToSelector` test and the optional-method dispatch (lines 138-141, 132, 165) are Objective-C runtime reflection. They are modelled as the two flags of `Listener`.
- The delegate and data source are weak references. Attaching or detaching the delegate during a session is not modelled; `Run` keeps the delegate fixed.
- A negative page count cannot be expressed: the data source is a sequence of sizes. The source traps on one when it builds the range `0..<numberOfViews` (line 98).
- The delegate callbacks (lines 132, 165) are outputs with no effect on the view. A delegate that scrolls the view from inside a callback would re-enter the scroll handler while the outer loop keeps its old offset. The model cannot show this re-entrance.
- `forEachUntil` is not part of this model. It is taken to visit pages in order and stop at the first that passes the test.
- Floating point is not modelled:
  - `CGFloat` is modelled as exact `real`, with no rounding, NaN or infinity.
  - A page of length 0 makes the source divide by 0 (lines 158, 162). `Positive` excludes it for the visibility loop, `DidScroll` and sessions.
  - `Positive` also excludes negative page lengths. The source does not trap on them; it reports visibilities outside [0, 1]. The model says nothing about such pages.
  - With no pages, the source's 0/0 content size is modelled as no content size.
- `VisibilityReport.WalkAsWritten`: termination is not modelled directly. A fuel bound is used, and running out of fuel gives no result.
- `Paging.DidScroll`: uses the corrected loop, so it does not repeat the last page (see Findings).
- PagedScrollView/ViewController.swift is not modelled. It is a demo host with random colours and storyboard outlets.

## Findings

| source | as written | input that shows it | evidently intended | confidence | as-written member | corrected member |
|---|---|---|---|---|---|---|
| PagedScrollView/DEPagingScrollView.swift:169-174 | When the next index would be past the last page, the index does not advance, so the last page is reported again until the viewport is used up | one page of length 100, offset 0, viewport 250: events (0, 1), (0, 1), (0, 0.5) | the loop stops after the last page: one event (0, 1) | high (not executed) | VisibilityReport.LastPageReemitted | VisibilityReport.WalkStops |
| PagedScrollView/DEPagingScrollView.swift:150-175 | With the offset exactly at the end of the content, the first visible page is the last one. Its visibility is 0, so nothing is subtracted and the loop never ends | any tiled pages, offset equal to the total length, viewport greater than 0 | the last page is reported once with visibility 0 and the loop ends | high (not executed) | VisibilityReport.StuckOnLastPage | VisibilityReport.NeverEndsAtContentEnd |
