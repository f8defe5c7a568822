# Roadmap deliverables: scheduling, progress chart and list editing

This project models the roadmap feature's deliverables in Dafny, and proves what
the feature promises about them. A roadmap card holds a list of deliverables.
Each deliverable has an id, a text, one of five statuses, a start date, a length
in working days, and two optional calendar flags. Around that list the feature
computes four things:

- **Scheduling** (`RoadmapData`, in `data.dfy`):
  - the card's span, from the earliest start to the latest projected end;
  - the next free start date;
  - the strict date-range overlap check, which can skip one id;
  - the per-status histogram.
- **Progress chart** (`ProgressGraph`, in `progress_graph.dfy`):
  - the completion percentage in the middle of the donut;
  - the per-status segments, with their rounded shares;
  - the angular layout of the wedges: gap, minimum sweep, label position, large-arc flag and label threshold.
- **List editing** (`DeliverablesList`, in `deliverables_list.dfy`):
  - the visible slice and the "+N more items" control;
  - the completed-items badge;
  - the handlers for status change, delete confirmation, adding, rescheduling and keys in the add box.
- **Helpers**:
  - `String.prototype.trim` (`JsString`, in `js_string.dfy`);
  - the optional value (`Wrappers`, in `wrappers.dfy`).

Dates are integer day numbers. Projecting a deliverable's end date is delegated
to the working-day calendar `addWorkingDays(start, days, excludeHolidays,
excludeSaturdays)`. Its code (`lib/dateUtils`) is not part of this model: every
operation takes the calendar as a function-valued parameter, so nothing proved
here depends on how it counts days. The same goes for inputs that come from the
environment:

- "today" (`new Date()`) is a parameter;
- the new item's id (`Date.now()`) is a parameter.

Angles are whole numbers of tenths of a degree. At these constants every angle
the layout produces is such a number: 1% is 36 tenths, the gap is 30, half the
gap is 15 and the minimum sweep is 20. Every drawn sweep is even, so the label
midpoints are whole too.

## Model

| member | source | states |
|---|---|---|
| RoadmapData.Rank | components/roadmap/data.ts:5-7 | every status has a position in the display order `TASK_STATUSES`, and the status at that position is the status itself |
| RoadmapData.Resolve | components/roadmap/data.ts:39-42 | holidays are excluded unless the flag is explicitly false; Saturdays are excluded only when the flag is explicitly true |
| RoadmapData.DefaultProjection | components/roadmap/data.ts:85-88 | with the options argument absent, the candidate range is projected with holidays excluded and Saturdays worked |
| RoadmapData.MinStart | components/roadmap/data.ts:44 | the fold result is at most every start date and equals one of them |
| RoadmapData.MaxEnd | components/roadmap/data.ts:45 | the fold result is at least every projected end and equals one of them |
| RoadmapData.ComputeCardDuration | components/roadmap/data.ts:30-55 | absent exactly for an empty list; otherwise the span starts at the minimum start and ends at the maximum projected end, both attained by some deliverable, and its length is end minus start |
| RoadmapData.SingleDeliverableSpan | components/roadmap/data.ts:30-55 | a one-deliverable card spans exactly that deliverable |
| RoadmapData.NextAvailableDate | components/roadmap/data.ts:58-74 | "today" for an empty list; otherwise the end date of the card's span, which no deliverable's projected end exceeds |
| RoadmapData.ScanFrom | components/roadmap/data.ts:90-104 | the early-exit scan answers true exactly when some later deliverable, not skipped by the excluded id, strictly overlaps the candidate range |
| RoadmapData.IsDateRangeOccupied | components/roadmap/data.ts:77-105 | occupied exactly when some deliverable whose id is not the non-empty excluded id strictly overlaps the projected candidate range; an empty list is never occupied |
| RoadmapData.EmptyExcludeIdSkipsNothing | components/roadmap/data.ts:91 | an empty excluded id gives the same answer as no excluded id |
| RoadmapData.TouchingRangesDoNotOverlap | components/roadmap/data.ts:99 | a candidate that starts where one deliverable ends and ends where another starts collides with neither |
| RoadmapData.OverlapIsSymmetric | components/roadmap/data.ts:99 | checking `a` as the candidate against `b` gives the same answer as checking `b` against `a` |
| RoadmapData.NextAvailableDateIsFree | components/roadmap/data.ts:58-105 | a range starting at the next available date collides with no deliverable, whatever its length, flags and excluded id |
| RoadmapData.StatusCounts | components/roadmap/data.ts:108-122 | every status is a key, and its bucket is the number of deliverables with that status |
| RoadmapData.StatusCountsTotal | components/roadmap/data.ts:108-122 | the five buckets add up to the number of deliverables |
| RoadmapData.CountUniformStatus | components/roadmap/data.ts:117-119 | when all deliverables share a status, its bucket holds them all and every other bucket is empty |
| ProgressGraph.RoundPercent | components/roadmap/ProgressGraph.tsx:50 | `Math.round(c / t * 100)` is the integer within half a unit of 100·c/t, halves rounded up; it is at most 100 when c ≤ t |
| ProgressGraph.RoundPercentUnique | components/roadmap/ProgressGraph.tsx:60 | any integer within that half-unit bracket is the rounded percentage |
| ProgressGraph.RoundPercentWhole | components/roadmap/ProgressGraph.tsx:60 | a count equal to the total rounds to 100 |
| ProgressGraph.CompletionPercent | components/roadmap/ProgressGraph.tsx:47-50 | 0 for no deliverables, otherwise the rounded share of completed deliverables; always in 0..100 |
| ProgressGraph.SegmentsFrom | components/roadmap/ProgressGraph.tsx:54-63 | from a display position on: statuses in strictly increasing display order, each with a non-zero count, its count and its rounded percentage; no status with a non-zero count is missed |
| ProgressGraph.Segments | components/roadmap/ProgressGraph.tsx:53-63 | exactly the statuses some deliverable has, in display order, each with its count and its rounded share in 0..100 |
| ProgressGraph.SegmentsEmptyIffNoDeliverables | components/roadmap/ProgressGraph.tsx:66 | the empty state is shown exactly when there are no deliverables |
| ProgressGraph.SingleStatusSegment | components/roadmap/ProgressGraph.tsx:53-63 | when all deliverables share a status, the chart is that one segment with the whole count and 100% |
| ProgressGraph.SegmentsFromSingle | components/roadmap/ProgressGraph.tsx:54-63 | with only one status counted, the segments from a position are that status's segment if the position has not passed it, and none otherwise |
| ProgressGraph.AdjustedSweep | components/roadmap/ProgressGraph.tsx:87-88 | the drawn sweep is the larger of the ideal sweep less the gap and the 2-degree floor |
| ProgressGraph.ArcGeometry | components/roadmap/ProgressGraph.tsx:86-94 | the wedge starts half a gap past the cursor and sweeps the adjusted angle; for a share of at least 1% it lies within its slot, from the cursor to the cursor plus its ideal sweep; the label sits strictly inside the wedge, midway along the arc and midway across the ring; the large-arc flag (line 35) is set exactly when the sweep exceeds half a turn; the label is shown exactly for shares of at least 12% (line 148) |
| ProgressGraph.LayoutArcs | components/roadmap/ProgressGraph.tsx:85-104 | one wedge per segment, and the final cursor is the start plus the ideal sweep of the percentages' sum |
| ProgressGraph.LayoutPlacesWedge | components/roadmap/ProgressGraph.tsx:85-91 | segment i's wedge is the one placed at the starting cursor plus the ideal sweeps of all earlier segments |
| ProgressGraph.WedgesAreVisible | components/roadmap/ProgressGraph.tsx:88-90 | every laid-out wedge sweeps at least 2 degrees |
| ProgressGraph.WedgesDoNotOverlap | components/roadmap/ProgressGraph.tsx:87-91 | a wedge with a share of at least 1% ends no later than the next wedge starts |
| ProgressGraph.ZeroPercentWedgeOverlapsNext | components/roadmap/ProgressGraph.tsx:87-91 | a segment whose share rounds to 0% still gets the 2-degree floor, so its wedge runs exactly 2 degrees past the next wedge's start |
| ProgressGraph.FullCircle | components/roadmap/ProgressGraph.tsx:91 | percentages adding up to 100 bring the cursor exactly once round the circle |
| ProgressGraph.FiveDeliverablesExample | components/roadmap/ProgressGraph.tsx:47-63 | two completed, one implementing, one on hold and one not started give the histogram 2/0/1/1/1 with planning empty, 40% complete, and exactly the segments Not Started 20%, Implementing 20%, On Hold 20% and Completed 40%, in that order |
| ProgressGraph.ThirdsLeaveAGap | components/roadmap/ProgressGraph.tsx:60-91 | three segments of one deliverable each round to 33%, and the cursor stops 3.6 degrees short of the full circle |
| ProgressGraph.ProgressChart | components/roadmap/ProgressGraph.tsx:46-104 | the empty state exactly for no deliverables; otherwise the completion percentage and the wedges of the segments laid out from angle 0 |
| DeliverablesList.Filter | components/roadmap/DeliverablesList.tsx:41 | `filter` keeps the elements that pass, in their original order, each as often as before, and drops every other element |
| DeliverablesList.MapMatching | components/roadmap/DeliverablesList.tsx:35 | the id-matching `map`: same length; items with the id are replaced by their changed copies and the rest stay in place |
| DeliverablesList.VisibleDeliverables | components/roadmap/DeliverablesList.tsx:27-30 | a prefix of the list: all of it on a large screen or when expanded, otherwise the first min(2, n) items |
| DeliverablesList.ShowMoreCountsHiddenItems | components/roadmap/DeliverablesList.tsx:164-188 | whenever the show-more control is rendered, its count `n − 2` (line 31) is positive and is exactly the number of items the collapsed list leaves out |
| DeliverablesList.CompletedCount | components/roadmap/DeliverablesList.tsx:32 | the badge's count is the histogram's Completed bucket |
| DeliverablesList.HandleStatusChange | components/roadmap/DeliverablesList.tsx:34-37 | same length and order; items with the id take the new status; every other field and every other item is unchanged |
| DeliverablesList.StatusChangeIdempotent | components/roadmap/DeliverablesList.tsx:34-37 | setting the same status twice is the same as setting it once |
| DeliverablesList.StatusBadgeChange | components/roadmap/DeliverablesList.tsx:134 | the badge updates the list exactly when the list is editable, and then it is the status change |
| DeliverablesList.ConfirmDelete | components/roadmap/DeliverablesList.tsx:39-45 | with a non-empty pending id: the items with that id are dropped, every other item is kept in order and with its multiplicity, and the pending id is cleared; with none, nothing happens |
| DeliverablesList.DeleteRemovesId | components/roadmap/DeliverablesList.tsx:39-45 | after a confirmed delete no item carries the deleted id, and confirming again does nothing |
| DeliverablesList.HandleAdd | components/roadmap/DeliverablesList.tsx:47-64 | blank text changes nothing; otherwise exactly one item is appended after the untouched list. It carries the trimmed text, status Not Started, 7 days, holidays excluded, Saturdays worked, and the next available date as its start; the text box is cleared and closed |
| DeliverablesList.AddedDeliverableIsFree | components/roadmap/DeliverablesList.tsx:47-61 | the added item collides with no existing deliverable, and its text is non-empty with no white space at either end |
| DeliverablesList.HandleDurationUpdate | components/roadmap/DeliverablesList.tsx:66-69 | items with the id take the new start and length; each flag given in the options overrides, and each one absent is kept; id, text, status and every other item are unchanged |
| DeliverablesList.HandleKeyDown | components/roadmap/DeliverablesList.tsx:71-78 | Enter adds; Escape clears and closes the box without touching the list; other keys do nothing; only Enter on non-blank text ever updates the list |
| JsString.Trim | components/roadmap/DeliverablesList.tsx:54 | the slice left after cutting the leading and then the trailing white space, neither starting nor ending with white space |
| JsString.TrimEmptyIffBlank | components/roadmap/DeliverablesList.tsx:48 | `!text.trim()` rejects exactly the texts made entirely of white space |

## Left out

- The working-day calendar `addWorkingDays` (`lib/dateUtils`) is not part of this model. It is a parameter, and no property depends on it, not even that an end date is no earlier than its start.
- ISO date strings are replaced by integer day numbers. The model leaves out `parseISO`, `toISOString().split("T")[0]`, the local-time against UTC mismatch between them, and `differenceInDays` on non-midnight times.
- The wall clock is not modelled. `new Date()` (the empty-list start date) and `Date.now()` (the new item's id) are parameters.
- `RoadmapData.NextAvailableDate`: the fallback at `components/roadmap/data.ts:73` cannot be reached from a non-empty list, since the loop always sets the maximum. The model has no separate branch for it.
- IEEE-754 floating point is not modelled. `Math.round` is modelled on the exact quotient, which can differ from the source's double arithmetic: 23 of 40 completed shows 57% in the source, because `23 / 40 * 100` is 57.49999999999999 in doubles, while the model rounds the exact 57.5 to 58%. For totals up to 60 this is the only count and total where the two differ. Angles are exact tenths of a degree, so float artefacts are absent, such as `33 / 100 * 360` not being exactly 118.8, or the running cursor accumulating rounding error.
- The trigonometry of `polarToCartesian` and the SVG path strings are not modelled. A wedge keeps its label angle and radius, not its Cartesian label point.
- Colours, the legend, JSX layout, animation and the screen breakpoint are not modelled. The breakpoint becomes a boolean parameter.
- React state plumbing is not modelled: `useState`, `onUpdate`, `onToggleExpand`. The editor's state is a plain value that each handler returns, and `onUpdate` is the optional list in the result. Trivial setters are not modelled: opening the add box, typing, choosing an item to delete and cancelling the dialog.
- `DeliverablesList.HandleDurationUpdate`: an options object whose flag is present but explicitly `undefined` is treated like an absent flag, so the model keeps the item's previous flag. The source overwrites the flag with `undefined`, which later projections read as the default. For example, an item with `excludeHolidays: false` rescheduled with `{ excludeHolidays: undefined }` excludes holidays again in the source but keeps `false` in the model.
- Statuses outside the five known ones cannot occur, because the status is a closed datatype.
- `DeliverableDuration` and `StatusBadge` are not part of this model. Only the callbacks the list hands them are modelled.
