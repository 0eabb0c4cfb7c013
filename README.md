# ChangeTracker in Dafny

This is a model of the change-highlighting core of the ChangeTracker Sublime Text plugin
(`changetracker.py`). The plugin compares the text in an editor buffer with the file saved
on disk and marks the spans that differ. It marks them either as full spans (mode "text") or
as zero-width dots (mode "dots"). It also lets the user jump from one change to the next,
and it recomputes the marks a little after the user stops typing.

The model has five modules:

- `Wrappers` (`wrappers.dfy`): `Option`.
- `Diff` (`diff.dfy`): `get_diff`. The matching blocks from Python's
  `difflib.SequenceMatcher` are an input, `seq<MatchBlock>`. `WellFormedBlocks` gives the
  shape that `get_matching_blocks()` documents: the triples ascend in both texts without
  overlapping, and the last one is the dummy `(len(saved), len(current), 0)`. `Gaps` is the
  fold that pairs the end of each matched run with the start of the next. `GetDiff` is the
  source's loop, proved equal to `Gaps`. An empty block list makes the source raise at
  `unchanged[0]`, which is `None` here.
- `Projection` (`projection.dfy`): the two list comprehensions of `highlight`.
  `TextRegions` keeps the non-empty pairs as spans. `DotRegions` turns each non-empty pair
  into a zero-width region at the pair's start.
- `Core` (`core.dfy`): class `HighlightChangesCore`, with the fields `regions` and
  `currentRegion` (`_current_region`). `Highlight` reassigns `regions`. `GotoNextDiff`
  moves the circular cursor. `Clear` hands the editor an empty list. `Goto` and
  `ShownIndices` are pure functions describing the cursor, used by the lemmas about it.
- `Listener` (`listener.dfy`): class `HighlightWhenTypingListener`, with the debounce
  counter `pending`. The host keeps one listener for all views, so the counter is shared.
  A ghost field `outstanding` holds the views of the timeouts that were scheduled and not
  yet delivered, and `Valid()` ties `pending` to its size. `Replay` folds the same steps
  over a sequence of edit and timeout events. Each event carries its view, and each edit
  carries the value the as-you-type setting has at that edit. The lemmas about bursts use
  `Replay`.

Behaviours of the plugin worth knowing:

- There is no file-size eligibility gate.
- There is no in-flight guard.
- Saving (`on_post_save`, `clear`) only sends an empty list to the editor. `self.regions`
  and the cursor keep their values.
- A recomputation does not reset the cursor. `Goto` shows that the next jump is still in
  bounds whatever the stale cursor is.
- Dots mark the start of a change.
- The mode is a plain string, and any unrecognised value leaves `self.regions` unchanged.
- Text before the first matching block is never reported. For example, a prefix inserted
  at the start of the file is not reported. When the texts have nothing in common, nothing
  at all is reported. `ReportedIffUnmatched` states exactly which offsets are reported: the
  offsets of the current text that no matched run covers, from the start of the first
  block on.
- One counter serves every view, and `on_idle` runs only on the view of the timeout that
  brings it to 0. If a view is edited and another view is edited within the delay, only
  the second one is recomputed (`OverlappingBurstsRecomputeOnlyLast`).

## Model

| member | source | states |
|---|---|---|
| `Diff.Gaps` | changetracker.py:39-45 | the fold yields exactly one pair fewer than there are blocks, and pair i is (end of block i in the current text, start of block i+1 in the current text) |
| `Diff.GetDiff` | changetracker.py:37-45 | the loop over `unchanged` returns `Gaps(blocks)`, with `|blocks| - 1` pairs; it fails (`None`) exactly when the block list is empty |
| `Diff.BlocksAscend` | changetracker.py:38-39 | documented matcher blocks ascend in both texts across any distance: block i ends before block j starts, for i < j |
| `Diff.BlocksWithinTexts` | changetracker.py:38-39 | every documented matcher block lies inside both texts |
| `Diff.GapsWithinCurrent` | changetracker.py:41-45 | every pair has start <= end <= len(current); when there is a pair, the last one ends at len(current) |
| `Diff.GapsSorted` | changetracker.py:41-45 | the pairs are in ascending order and do not overlap: pair i ends no later than pair j starts, for i < j |
| `Diff.NoGapBeforeFirstBlock` | changetracker.py:41-44 | no pair starts before the end of the first block's matched run |
| `Diff.NoCommonContentReportsNothing` | changetracker.py:39-45 | when only the dummy block is reported (nothing in common), the result is empty |
| `Diff.IdenticalTextsOnlyEmptyGaps` | changetracker.py:39-45 | for equal texts of length n (first block (0, 0, n)), every pair is the empty pair (n, n) |
| `Diff.IgnoresSavedCoordinate` | changetracker.py:39 | the result depends only on the current-text coordinate and size of each block, never on `m[0]` |
| `Diff.ReportedIffUnmatched` | changetracker.py:39-45 | an offset p lies in a reported pair if and only if first-block start <= p < len(current) and no matched run covers p |
| `Projection.TextRegions` | changetracker.py:52-53 | text mode keeps exactly the non-empty pairs as regions (membership in both directions), never more regions than pairs |
| `Projection.DotRegions` | changetracker.py:54-55 | dots mode gives one zero-width region per non-empty pair, in the same order, each at that pair's start |
| `Projection.TextRegionsSorted` | changetracker.py:52-53 | text mode preserves order: sorted, disjoint pairs give sorted, disjoint, non-empty regions |
| `Projection.DotRegionsAscending` | changetracker.py:54-55 | dots from sorted, disjoint pairs are strictly ascending, so no two coincide |
| `Projection.HighlightRegionsWithinCurrent` | changetracker.py:51-55 | from documented matcher blocks, text regions are sorted, disjoint, non-empty and inside the current text, and dots lie before its end |
| `Projection.AppendedSuffixReported` | changetracker.py:51-55 | appending k characters to a non-empty text is reported as exactly the span of the suffix (text mode), or as one dot at its start |
| `Projection.InsertedWordReported` | changetracker.py:51-55 | for saved "hello world", current "hello brave world" and their matching blocks, the one region is [6, 12), and in dots mode one dot at 6 |
| `Core.Goto` | changetracker.py:30-35 | one jump: the shown index is in bounds, a region is shown exactly when the list is non-empty, the new cursor is in 1..count (or 1 for an empty list) |
| `Core.WalkToEndThenWrap` | changetracker.py:30-35 | from a cursor c < count, successive jumps show c, c+1, ..., count-1 and then 0 |
| `Core.CycleFromStart` | changetracker.py:30-35 | from cursor 0 with count > 0 regions, count jumps show 0..count-1 in order and the next jump shows 0 again |
| `Core.EmptyListShowsNothing` | changetracker.py:30-35 | on an empty region list no jump ever shows anything |
| `Core.HighlightChangesCore.constructor` | changetracker.py:15-19 | a new core has no regions and cursor 0 |
| `Core.HighlightChangesCore.GotoNextDiff` | changetracker.py:30-35 | performs exactly the `Goto` step; the index passed to `view.show` is in bounds; afterwards 1 <= cursor <= len(regions) for a non-empty list, and cursor 1 with nothing shown for an empty one; `regions` is not modified |
| `Core.HighlightChangesCore.Highlight` | changetracker.py:47-58 | on a read failure or an empty block list, `regions` keeps its value and nothing is rendered; otherwise `regions` becomes the text or dots projection of `Gaps(blocks)` for a recognised mode and stays unchanged for any other mode string, and the new list is rendered |
| `Core.HighlightChangesCore.Clear` | changetracker.py:60-61 | the list handed to the editor is empty; nothing in the core changes |
| `Listener.PendingCountsOutstanding` | changetracker.py:82-93 | after any sequence of events in any views, `pending` equals its start value plus the timeouts scheduled minus the timeouts delivered, all views together |
| `Listener.TimeoutsDrain` | changetracker.py:82-85 | k timeouts of one view delivered to a counter of k call `on_idle` exactly once, on that view, and leave the counter at 0 |
| `Listener.BurstRecomputesOnce` | changetracker.py:82-93 | k > 0 edits in one view followed by their k timeouts recompute that view exactly once and leave `pending` at 0 |
| `Listener.OverlappingBurstsRecomputeOnlyLast` | changetracker.py:82-93 | m > 0 edits in view a, then n > 0 edits in view b, then all their timeouts in the same order, recompute only b, once; a is never recomputed when a != b |
| `Listener.DisabledEditsAreIgnored` | changetracker.py:90-93 | edits made with as-you-type off change neither the counter nor the recomputed views, and schedule nothing |
| `Listener.HighlightWhenTypingListener.constructor` | changetracker.py:77-80 | a new listener has `pending` 0, no outstanding timeout and its own fresh core |
| `Listener.HighlightWhenTypingListener.OnModified` | changetracker.py:90-93 | when as-you-type is on, `pending` grows by one, a timeout for this view joins the outstanding ones and is scheduled with the configured delay; otherwise nothing changes and nothing is scheduled |
| `Listener.HighlightWhenTypingListener.HandleTimeout` | changetracker.py:82-88 | `pending` drops by one and still counts the outstanding timeouts; `on_idle` runs, on the timeout's own view, exactly when no timeout of any view is outstanding |
| `Listener.HighlightWhenTypingListener.OnPostSave` | changetracker.py:95-96 | saving hands the editor an empty region list through the listener's core |

## Left out

- `difflib.SequenceMatcher` (changetracker.py:38) is a library algorithm whose code is not part of this model. Its `get_matching_blocks()` result is an input. The lemmas assume the shape documented for it (`WellFormedBlocks`).
- Reading the buffer (`view.substr`, `view.size`, line 49) is editor I/O. The current text enters the model only through the matching blocks and its length.
- Reading the saved file (`view.file_name`, `codecs.open`, line 50) is file I/O. Only its possible failure is modelled, as the `readOk` flag of `Highlight`.
- The settings getters (lines 21-28) look up a foreign settings store. Their values (defaults True, 2000 and "dots") are parameters: `asYouType`, `delay` and `mode`.
- The editor calls `view.show`, `view.add_regions` and `view.run_command`, and `sublime.set_timeout`, are recorded as return values: the shown index, the rendered list, the `idle` flag and the scheduled delay.
- The scope and style strings and the `DRAW_OUTLINED` flag are rendering details only.
- The `TextCommand` registration classes (lines 63-74) are plugin plumbing. `GotonextdiffCommand.run` is `Highlight` followed by `GotoNextDiff` on the command's own core.
- `on_idle` (lines 87-88) only asks the editor to run the "highlightchanges" command. It appears as the `idled` result of `HandleTimeout`, which names the view.
- Timer timing and concurrency are not modelled: each delivered timeout is an explicit, sequential event. `threading.Timer` and `self.timer` are never used by the source.
- Listener.HighlightWhenTypingListener.HandleTimeout: requires an outstanding timeout of its view, because only the timers scheduled by `on_modified` call it. A spurious call, which would drive `pending` below 0, is not modelled.
