# Scanline flood fill (algofill.c) in Dafny

This project models the flood fill engine of `src/raster/algofill.c`. That file is Allegro's
`floodfill`, adapted for ASE. The engine is given an image, a seed pixel and an `AlgoHLine`
callback. It samples the seed's colour (`src_color`) and reports, run by run, the region of
that colour that is 4-connected to the seed. It never writes the image.

The engine keeps its state in a scratch arena of `FLOODED_LINE` records:

- `flags` holds `FLOOD_IN_USE`, `FLOOD_TODO_ABOVE` and `FLOOD_TODO_BELOW`.
- `lpos`, `rpos` and `y` give the extent of the record's run.
- `next` is an index link; 0 ends a chain.

Slot `r < h` is the head of row `r`'s chain. Further segments of a row are appended at
`flood_count` and linked from the last record of that chain. The operations are:

- `flooder` scans the maximal run through a pixel, reports it and records it.
- `check_flood_line` walks a row's chain across a span. It skips recorded segments and calls
  `flooder` at every uncovered column.
- `algo_floodfill` bounds-checks the seed, sets up `h` empty head slots and floods the seed's
  run. It then sweeps the arena and, for every set TODO flag, clears it and checks the row
  beside the run. After a successful upward check on a row head it steps back by two. It
  stops after a pass in which no `check_flood_line` call returned TRUE, that is, a pass that
  called `flooder` nowhere.

The project has three files:

- `raster.dfy` (module `Raster`) holds the image, maximal runs, 4-connected reachability and
  closed pixel sets.
- `floodlines.dfy` (module `FloodLines`) holds the record, the flag constants, the
  well-formedness of the arena and the lemmas about how each step changes it.
- `algofill.dfy` (module `AlgoFill`) holds the engine as imperative code.

The engine is the class `FloodFill`:

- `scratch` is the arena's records in use.
- `floodCount` is `flood_count`.
- `trace` is the callback calls made so far.
- `chains` is a ghost copy of each row's chain of indices.

Every loop of the C code is a loop here, with its invariants. The class invariant `Valid()`
says four things:

- The arena is well formed.
- Every recorded segment is a maximal run of `src_color`.
- The callback calls are pairwise disjoint on each row and report exactly the covered pixels.
- Every covered pixel is 4-connected to the seed.

The main theorem is the contract of `AlgoFloodfill`:

- With a seed outside the image, nothing is reported.
- Otherwise the seed's run is reported first.
- Every reported run is a maximal run of the seed colour.
- No two reported runs on one row share a pixel.
- The reported pixels are exactly the pixels 4-connected to the seed through that colour.

The sweep terminates under the lexicographic measure (pixels not yet covered, TODO flags
still set). The backward step `c -= 2` is kept as written. It affects neither termination nor
the set of reported runs; it can change the order of the callback calls, which no contract
fixes.

Two details of the code matter for the contracts:

- `check_flood_line` returns TRUE whenever it called `flooder`. That includes a call that
  found a pixel of another colour and recorded nothing. It does not mean "a new segment was
  created".
- Unused head slots carry the seed's `y` (line 253), not their own row.

## Model

| member | source | states |
|---|---|---|
| Raster.MaxRunsOverlapAreEqual | src/raster/algofill.c:76-85 | two maximal runs of one colour on one row that share a pixel are the same run, which is why runs found through different columns never overlap |
| Raster.ClosedSetHoldsRegion | src/raster/algofill.c:261-291 | a closed set that holds the seed holds the seed's whole 4-connected region |
| FloodLines.EmptyLine | src/raster/algofill.c:249-255 | an initial slot has no flags and no link, and no column lies inside it (`lpos` SHRT_MAX above `rpos` SHRT_MIN) |
| FloodLines.SegmentFlags | src/raster/algofill.c:173-183 | a new segment has IN_USE, has TODO_ABOVE exactly when `y > 0`, and has TODO_BELOW exactly when `y + 1 < h` |
| FloodLines.EmptyArena | src/raster/algofill.c:246-255 | `h` empty head slots, one-element chains and no calls form a consistent, settled fill that covers nothing and has no pending TODO checks |
| FloodLines.SettledArenaIsClosed | src/raster/algofill.c:261-291 | when no TODO flag is left, the covered pixels are closed under 4-neighbours of the source colour |
| FloodLines.LaterRunsAreNew | src/raster/algofill.c:202-221 | runs reported after an earlier point share no pixel with the runs reported before it |
| FloodLines.RecordSegment | src/raster/algofill.c:158-183 | flooder's store step, in either slot, keeps the fill consistent and adds exactly the new run's pixels |
| AlgoFill.FindRun | src/raster/algofill.c:65-153 | the start pixel matches exactly when the colours are equal, and then `left..right` is the maximal run of `src_color` through `x` |
| AlgoFill.FloodFill.constructor | src/raster/algofill.c:242-255 | samples `src_color` at the seed and sets up `h` slots with flags 0, next 0, `lpos` SHRT_MAX, `rpos` SHRT_MIN and the seed's `y`, with `flood_count == h` |
| AlgoFill.FloodFill.Flooder | src/raster/algofill.c:58-186 | on a mismatch returns `x + 1` and changes nothing; otherwise reports the maximal run through `x`, stores it as the code does, covers exactly its pixels and returns `right + 2 > x` |
| AlgoFill.FloodFill.StoreSegment | src/raster/algofill.c:158-183 | the new segment goes into the empty head slot, or is appended at `flood_count` and linked from the chain's end; nothing else changes |
| AlgoFill.FloodFill.ChainEnd | src/raster/algofill.c:159-166 | the walk along `next` stops at the last index of row `y`'s chain |
| AlgoFill.FloodFill.GrowScratchMem | src/raster/algofill.c:169 | the arena holds at least `size` records and keeps the old ones |
| AlgoFill.FloodFill.LinkNew | src/raster/algofill.c:168-170 | the chain's end links to the old `flood_count`, which then rises by exactly one; every other record is unchanged |
| AlgoFill.FloodFill.StoreFlags | src/raster/algofill.c:173-183 | record `c` becomes the fresh segment for `left..right` on row `y`, with its flags and `next == 0` |
| AlgoFill.FloodFill.SegmentAt | src/raster/algofill.c:203-220 | the chain walk finds a segment of row `y` containing `x` exactly when `(x, y)` is covered |
| AlgoFill.FloodFill.CheckFloodLine | src/raster/algofill.c:195-224 | afterwards every source-colour column of the span is covered; returns TRUE exactly when some column starts an uncovered stretch (so flooder ran); FALSE means nothing changed; new runs are disjoint from the old segments |
| AlgoFill.FloodFill.CheckAt | src/raster/algofill.c:203-220 | one turn of the loop advances the cursor past a covered stretch that ends before a non-matching pixel; flooder runs exactly when `x` was uncovered |
| AlgoFill.FloodFill.ClearFlag | src/raster/algofill.c:269-281 | clears flag `b` of segment `c` and nothing else; the source-colour pixels beside the run on that side are reachable |
| AlgoFill.FloodFill.ClearAndCheck | src/raster/algofill.c:269-289 | one probe clears the flag, keeps the fill consistent and settled, strictly lowers the measure, and changes nothing else when check_flood_line returns FALSE |
| AlgoFill.FloodFill.Sweep | src/raster/algofill.c:262-290 | one pass, with the `c -= 2` step, keeps the fill consistent and settled and never raises the measure; a pass that found something lowered it strictly, and a pass that found nothing leaves no TODO flag set |
| AlgoFill.FloodFill.Run | src/raster/algofill.c:261-291 | the do-while loop ends with no TODO flag left and the covered pixels closed under 4-neighbours |
| AlgoFill.AlgoFloodfill | src/raster/algofill.c:231-292 | an out-of-bounds seed reports nothing; otherwise the seed's run comes first, the runs are maximal and disjoint per row, and they cover exactly the seed's 4-connected region |

The table covers the members that stand for the C code, plus the lemmas that state its main
promises. The lemmas below are the steps of those proofs. They relate the arena, the trace
and the pixel sets, and no single one of them corresponds to a line of C.

- `Raster.RunInside`: a set that holds a run's pixels holds each column of the run on its row.
- `Raster.ReachableSeed`: the seed, whose colour defines `src_color`, is in its own 4-connected region.
- `Raster.ReachableStep`: an edge neighbour of the source colour of a reachable pixel is reachable (the step from a run to the row above or below).
- `Raster.ReachableAlongRun`: every pixel of a run that holds one reachable pixel is reachable (the left and right scans stay in the region).
- `Raster.ClosedSetHoldsPath`: a set closed under 4-neighbours of the source colour holds a whole path once it holds its start.
- `FloodLines.ScanStep`: one turn of check_flood_line's loop extends the checked prefix of the span: every source-colour column before the new cursor is covered.
- `FloodLines.OnOwnChain`: a record that covers a column is a well-formed segment on its own row's chain.
- `FloodLines.CoveredMatches`: every covered pixel lies in the image and has the source colour.
- `FloodLines.NotCoveredOffChain`: a column no record on row `y`'s chain contains is not covered by any record.
- `FloodLines.TraceAppend`: one more callback call reports exactly its run's pixels in addition to the earlier ones.
- `FloodLines.OverlapIsCovered`: a new maximal run that overlaps an earlier reported run on its row lies inside it.
- `FloodLines.ReportRun`: reporting a maximal run through an unreported pixel keeps the calls on each row pairwise disjoint.
- `FloodLines.OccupyHead`: placing a segment in its row's empty head slot keeps every chain and head slot well formed.
- `FloodLines.ReplaceEmptyCovered`: overwriting a record that covers nothing covers exactly the new segment's pixels in addition.
- `FloodLines.RelinkAppendCovered`: relinking the chain end and appending a segment covers exactly the new segment's pixels in addition.
- `FloodLines.ChainTail`: following `next` from head `y` ends at a record of row `y` with `next == 0`, met only at the end of the chain.
- `FloodLines.AppendToChain`: appending at `flood_count` and linking from the chain's end keeps the arena well formed, with row `y`'s chain one longer.
- `FloodLines.AppendedChainOk`: the relinked chain of row `y` reaches the appended record and ends there.
- `FloodLines.ChainsAvoidTail`: relinking row `y`'s chain end leaves every other row's chain unchanged.
- `FloodLines.ReportAndCover`: reporting and recording a run through an uncovered reachable pixel keeps the calls disjoint, equal to the covered pixels, and reachable.
- `FloodLines.RecordInHead`: the head-slot case of flooder's store keeps the fill consistent, adds exactly the run's pixels and keeps every old segment.
- `FloodLines.RecordAtTail`: the append case of flooder's store keeps the fill consistent, adds exactly the run's pixels and keeps every old segment.
- `FloodLines.AppendExtends`: appending keeps every old record's flags and extent, and the new record has a fresh segment's flags.
- `FloodLines.SameExtentCovered`: changing only flags or links leaves the covered pixels unchanged.
- `FloodLines.ClearTodo`: clearing a set TODO flag keeps the fill consistent, keeps the covered pixels, and removes one pending check.
- `FloodLines.ClearTodoArena`: clearing a TODO flag keeps the segment and the arena well formed.
- `FloodLines.ClearTodoPending`: clearing a set TODO flag strictly shrinks the set of pending checks.
- `FloodLines.ExtendsTransitive`: segments recorded over several flooder calls keep every old segment's flags and extent.
- `FloodLines.SettledGrows`: recording new segments never reopens a finished check: new segments carry their TODO flags.
- `FloodLines.SettledAfterCheck`: clearing a flag and then covering the row on that side leaves every cleared flag backed by a fully covered row.
- `FloodLines.ProbeDone`: after one probe the segment keeps its cleared flags, the arena stays settled, and the measure (uncovered pixels, pending checks) strictly drops.
- `FloodLines.NeighbourCovered`: a source-colour edge neighbour of a pixel of a settled segment is covered, sideways by maximality and vertically by the cleared flags.
- `FloodLines.UncoveredShrinks`: covering more pixels of the image strictly shrinks the set of uncovered pixels (the sweep's termination measure).
- `FloodLines.RowBesideReachable`: every source-colour pixel in the row above or below a covered run, within its span, is reachable from the seed.
- `FloodLines.TracePixelsGrow`: later callback calls never drop a reported pixel.
- `FloodLines.ProgressThenProgress`: two probes in a row keep the sweep's measure from rising, and it strictly drops when either probe makes it drop.
- `FloodLines.RecordCovered`: every column of a recorded segment is covered.
- `FloodLines.FillParts`: the consistency predicate of a fill gives back its parts: the arena is well formed, every covered pixel lies in the image, and the calls report exactly the covered pixels.
- `AlgoFill.FloodFill.ValidParts`: the class invariant gives back the facts that the methods hide to keep each proof small.
- `FloodLines.UnmatchedNotCovered`: a pixel that does not have the source colour, such as `rpos + 1`, is never covered.

## Left out

- The four pixel layouts (RGB, grayscale, indexed, generic through `image_getpixel`) are one
  `Pixel` read on a `seq<seq<int>>`. The four scanning loops at lines 65-150 are identical
  apart from that read.
- `_grow_scratch_mem`, `_scratch_mem` and `FLOOD_LINE(c)` are a Dafny sequence that grows.
  New slots hold a placeholder record until they are written. Allocation failure is not
  modelled.
- The fields `lpos`, `rpos` and `y` are unbounded integers. `short` overflow is not modelled,
  for images of 32768 or more columns or rows.
- The callback and its `data` pointer become an appended trace of `(x1, y, x2)` calls. What
  the callback does to pixels is outside the engine.
- The static `flood_count` is a field of the per-fill object. Reentrancy and sharing of the
  static are not modelled.
- AlgoFill.FloodFill.Flooder: requires the start pixel to be uncovered and, if it has the
  source colour, reachable from the seed. The C function demands neither, but its two call
  sites guarantee both (the first call on an empty arena, and check_flood_line only at
  uncovered columns beside a covered run). Without them the consistency invariant would not
  hold.
- AlgoFill.FloodFill.CheckFloodLine: requires `0 <= left`, `right < w` and a row inside the
  image. It also requires the source-colour pixels of the span to be reachable. Both of the
  sweep's calls (lines 272 and 282) pass a segment's extent and a row its TODO flags allow, which guarantees these.
- AlgoFill.FloodFill.StoreSegment: states the new arena through the chain of row `y` rather
  than through the pointer walk it performs. ChainEnd states that the walk ends at that
  chain's last index.
- `src/raster/gfxobj.c`, `src/app/ui/color_sliders.h` and
  `src/app/commands/cmd_layer_visibility.cpp` are not part of this model. They are a locked
  object registry, UI declarations and command wiring, none of which the fill uses.
