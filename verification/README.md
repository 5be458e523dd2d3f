# Verified model of the Ring-2Zero delta-streaming engine

Ring-2Zero streams a desktop to a browser. Each frame is cut into a grid of cells; a
change detector finds the cells that changed, a merger joins them into rectangles, a
pool encodes the rectangles, a packer sends them as one numbered batch, the client
acknowledges a batch once it has decoded all of it, and the cells of a batch that is not
acknowledged in time travel back to be sent again. This project models that engine in
Dafny and proves what each part promises and what holds over whole runs.

| file | models |
|---|---|
| `Common.dfy`, `LittleEndian.dfy` | machine integer ranges, optional values, a few facts about division and sequences; little-endian integers |
| `Grid.dfy` | the grid, rectangles made of cells, cell listings (src/tile.rs) |
| `Frames.dfy` | RGBA frames, tile extraction, gathering the bytes to hash (src/tile_extract.rs, src/tile.rs) |
| `Hash.dfy` | the AVX2 and SSE2 hashes on 64-bit words (src/tile.rs) |
| `Merger.dfy` | the tile merger (src/encoder.rs) |
| `Detection.dfy`, `DiffDetector.dfy`, `DetectionRuns.dfy` | the change detector: one cell as a function, the imperative detector proved against it, and whole runs (src/diff.rs) |
| `Baseline.dfy` | what the detector's baselines say about the frames, and the detector under the real hash |
| `DeltaStream.dfy` | what a client sees that draws the emitted rectangles, throttled or not |
| `SendHistory.dfy`, `Refresh.dfy`, `CallHistory.dfy` | when and at what quality cells are sent, when a refresh comes, and when the cache serves, told from the history of a run alone |
| `EncodingPool.dfy` | the encoding pool as a step system (src/encoding_pool.rs) |
| `Pipeline.dfy`, `PipelineRuns.dfy` | one frame through the pipeline, its encode cache over whole runs, and the client's screen end to end (src/pipeline.rs) |
| `AckTracker.dfy`, `Session.dfy`, `Expiry.dfy`, `Orphan.dfy` | batches in flight and when they count as lost, the whole session of processing, sending, acknowledging and losing, and the run in which it forgets a cell (src/transport.rs, src/stream.rs) |
| `Wire.dfy`, `InputEvents.dfy`, `Client.dfy` | the wire format, the greedy packer, and the browser's message handler (src/protocol.rs, docs/client-examples/client.html) |
| `SessionLog.dfy`, `Canvas.dfy`, `Delivery.dfy`, `LateDecode.dfy` | what a session has emitted, the browser's canvas, and all parts together: what the browser shows once a session is at rest, and the run in which it shows an old frame |
| `Bandwidth.dfy`, `HeldInput.dfy`, `InputHistory.dfy`, `History.dfy` | quality adaptation, held keys and buttons, what the host is sent over whole runs, the change history (src/bandwidth.rs, src/input.rs, src/tile.rs) |

Code that changes state step by step is modelled by classes and loops (`DiffDetector`,
`Pipeline`, `TileHasher`, `AckTracker`, `SendLoop`, `Page`, `Display`,
`BandwidthController`, `HeldState`, `Injector`, `CircularBuffer`, the merger, the packer,
tile extraction). Each method is proved against a function of the old state; the claims
about runs are proved about those functions, and what the functions mean is stated without
them, in arithmetic or from the history of a run. Concurrency is a step relation:
`EncodingPools` interleaves n workers with the main thread, `Sessions` interleaves
processing, sending, acknowledgement, expiry and recovery, `Clients` interleaves messages,
animation frames and decodes that finish in any order.

## What the code does not do

These are properties that fail as the code stands. Each is proved with the exact
condition under which it holds.

1. **Lost cells can stay lost.** An invalidated cell is returned by the next frame
   exactly when that frame's number has reached `target_fps / static_tile_fps`
   (`ReArmedIff`, `InvalidatedAreSent`); otherwise the forced resend is throttled and its
   flag is dropped (src/diff.rs:219-232 and 304-308). Since armed cells exist only after
   the first frame, loss recovery works in every run exactly when that quotient is at
   most 2 (`NeverOrphansIff`), for every codec and every hash with one pixel that it does
   not send to zero. The defaults, 60 and 16, give 3 (src/config.rs:53-61), so the engine
   with its own hash has a run that orphans a cell (`DefaultsOrphanACell`).
2. **A quality refresh can miss a cell.** Send pixel A, lose it, show B as the second frame
   with a quotient of 3 or more: the resend is throttled, B becomes the baseline, the
   refresh sees a cell that was not sent as dynamic and leaves it, and A stays on screen
   (`StaleAfterRefresh`, `StaleOnScreen`). One refresh followed by one frame makes every
   cell's last-sent content its baseline, and the client's screen the frame, in every run
   exactly when the quotient is at most 2 (`AlwaysConvergesIff`, `RefreshMirrorsIff`,
   `EngineConvergesIff`).
3. **A frame can wait for the pool forever.** All tasks of a frame are submitted before a
   result is collected, so a batch completes exactly when it has at most 5n tasks for n
   workers (`PoolCompletesIff`). `process`, which here submits to and collects from a pool
   whose threads step in any order (`Pipelines.Collect`), returns exactly when the cache
   misses on at most that many tiles (`Pipeline.Process`). The first frame of a 1920x1080 desktop at
   the default 20 columns has 400 cells, hence at least 25 tasks, and four workers can
   hold 20 (`FullFrameNeverReturns`, `DefaultFrameExceedsFourWorkers`).
4. **A tile length can look like a marker.** A packet opens with the 32-bit length of
   its first tile, and the client dispatches on the low 16 bits. A batch is read back
   exactly when no packet's first tile has a length that is 0xFFFE or 0xFFFF modulo
   2^16 (`DispatchIff`, `BatchRoundTrip`). A tile of 65526 image bytes sent on its own
   never arrives: the client takes it for the announcement of a batch (`LongTileIsLost`).
5. **Damage marking overruns narrow frames.** The marking loop multiplies rows by the
   configured column count. Every index stays in range exactly when the frame is at
   least that wide or has a single row of cells (`MarkingInRangeIff`).
6. **"Dynamic" is not "changed on the last two frames".** The previous hash moves only
   when a cell changes, so docs/DEVELOPMENT.md:83 does not describe the code: in every
   run a changed cell is dynamic exactly when it has been sent since its last reset
   (`DynamicMeansSentBefore`, `IdleCellIsDynamic`). The model follows the code.
7. **Gap tiles without a dirty cell exist.** For `merge_gap` up to 2 every rectangle has
   a dirty cell in each column; for 3 and more, which is the aggressive automatic
   setting, a rectangle of clean cells sent at quality 10.0 does occur
   (`SmallGapsLeaveNoCleanColumn`, `LargeGapLeavesCleanChunk`).
8. **The page paints in the order decodes finish.** A tile of an older batch that is
   decoded late covers a newer one. There is a run, for the engine's own hash and every
   configuration, in which everything arrives and is acknowledged, the session comes to
   rest, and the browser shows the older of two frames (`LateDecodeShowsOld`,
   `LateDecodeHappens`). At rest a pixel shows the latest batch of its cell, whatever the
   contents, if the tile painted last over the pixel is of that batch, and where no other
   frame shows the pixel alike, only then (`QuietShowsLatestIff`).

## Hypotheses

- The hash of real cell content is nonzero, because zero is the reset value
  (`Hashable`). Where pixels are claimed to agree, the hashes tell apart the contents
  they are compared on (`NoCollision`, `NoServedCollision`). For contents that differ
  within one aligned 8-byte word `SmallChangeNeverCollides` proves that outright. So the
  detector with the real hash sees a change of one pixel of a sampled row since the frame
  it last found to change the cell (`OnePixelChangeIsDetected`), and it misses nothing in
  a run that changes at most one such pixel of a cell at a time (`GradualIsFollowed`).
  Changes that went unnoticed before, in rows that are not sampled, are not covered by
  either.
- No frame throttles an armed cell, where a result says so (`NoneThrottled`, `Prompt`,
  `PromptStream`, `Punctual`, `AllOnTime`). It always holds when the static interval is at
  most two frames (`ShortIntervalIsPrompt`, `ShortIntervalIsPromptStream`,
  `ShortIntervalIsOnTime`) and fails in some run otherwise (items 1 and 2).
- Damage regions are accurate where pixels are claimed to agree: whatever changed lies
  in a reported region (`Accurate`).
- A detector with damage information is configured with no more columns than the frame
  has pixels (`Fits`), which is item 5 above.
- Sequence numbers: fewer than 2^32 registrations fall in the life of a batch
  (`CanStep`). `AckTracker.Register` itself wraps and overwrites as the code does. The
  acknowledgements a session takes are ones the client sent (`Genuine`, which
  `HeardIsGenuine` derives while no number has been used twice).
- At rest the page has painted what it decoded (`CanvasAfter(csteps).pending == []`, part
  of `Resting`).
- The client theorems assume messages arrive in order (`MessagesOf(steps) <=
  Channel(sendings)`), although the code's screen channel is unordered, and that no
  packet opens like a marker (`Readable`, item 4) and frame sizes fit a header (`Narrow`).

## Model

| member | source | states |
|---|---|---|
| `Grids.CellsPartitionFrame` | src/tile.rs:303-328 | every pixel of a frame lies in the rectangle of exactly one cell, for every valid grid |
| `Grids.NewIsProportioned` | src/tile.rs:279-295 | of every grid made for a frame: columns are as wide as the frame allows, rows as tall as the frame's aspect ratio allows, rounded down but never empty, and there are just enough of them |
| `Grids.ProportionedIsNew` | src/tile.rs:279-295 | only one grid has these proportions, the one the constructor makes |
| `Grids.RangeHasPixel` | src/tile.rs:303-320 | the rectangle built from column and row spans contains a pixel exactly when it contains the pixel's cell |
| `Grids.CellInsideFrame` | src/tile.rs:323-328 | every cell's rectangle is nonempty and inside the frame |
| `Grids.BoundsInvertSpans` | src/tile.rs:365-391 | grid bounds of a rectangle made of whole cells give back exactly its cell range, its top left cell and whether it is a single cell |
| `Grids.CoveredIndices` | src/tile.rs:393-402 | lists exactly the cells of the tile's range, each once, in increasing order |
| `Grids.IntermediatesFit` | src/tile.rs:279-328 | for frames of fewer than 2^32 bytes no intermediate product or sum leaves u32, so the unbounded arithmetic here is the code's |
| `Frames.ExtractTile` | src/tile_extract.rs:15-80 | fills the front of the buffer with exactly the tile's rows and keeps the rest, for every lane width and for the full-width shortcut |
| `Frames.CopyRow` | src/tile_extract.rs:86-120 | copying in lanes plus a remainder moves exactly the row and nothing else |
| `Frames.TileHasher.HashTile` | src/tile.rs:35-63 | hashes exactly the tile's rows, whatever the reused buffer held |
| `Frames.TileHasher.HashTileHalf` | src/tile.rs:65-97 | hashes exactly rows 0, 2, 4, ... of the tile |
| `Frames.TileBytesArePixels` | src/tile.rs:35-63 | two frames give a tile the same bytes exactly when they agree on each of its pixels |
| `Frames.SampledBytesArePixels` | src/tile.rs:65-97 | two frames give a tile the same half-hash bytes exactly when they agree on each pixel of its even rows |
| `Hashing.UnmixFmix` | src/tile.rs:148-154 | the finalizer is a bijection on 64-bit words |
| `Hashing.FmixOfKnownWords` | src/tile.rs:148-154 | the finalizer takes 1 and the all-ones word to the words MurmurHash3's definition gives |
| `Hashing.HashVector` | src/tile.rs:160-251 | the vector loop, zero-padded remainder and lane fold compute the word-wise definition, with 4 lanes for AVX2 and 2 for SSE2 |
| `Hashing.SeedOfBlock` | src/tile.rs:162-184 | block k meets each lane's constant k+2 times over, modulo 2^64, for any number of lanes |
| `Hashing.HashOfFourLanes` | src/tile.rs:143-212 | the AVX2 hash of any data from its words alone: each lane the exclusive or of its words plus their multiples of the constant, the lanes rotated by 1, 17, 33 and 49 over the length, and mixed |
| `Hashing.HashOfTwoLanes` | src/tile.rs:218-250 | the same for SSE2, with two lanes |
| `Hashing.EqualBlocksNeverCancel` | src/tile.rs:178-190 | two equal blocks in a row never cancel: from any accumulators and seeds, every lane changes |
| `Hashing.WordIsLittleEndian` | src/tile.rs:178-179 | eight bytes are the word with the first of them lowest |
| `Hashing.FoldLanes` | src/tile.rs:143-155 | the fold loop computes the lane-by-lane definition |
| `Hashing.SmallChangeNeverCollides` | src/tile.rs:143-251 | equal-length buffers that differ only within one aligned 8-byte word never hash alike, under both vector forms |
| `Merging.ColumnRuns` | src/encoder.rs:87-117 | runs start and end on dirty rows, hold every dirty row, bridge only gaps of at most `merge_gap`+1 clean rows, and lie at least `merge_gap`+2 clean rows apart |
| `Merging.RunsAreFilledCells` | src/encoder.rs:87-117 | a row is in a run exactly when it is dirty or bridged, so the runs are determined by the dirty cells |
| `Merging.CollectRuns` | src/encoder.rs:35-41 | every run is listed with exactly the columns that have it, in increasing order |
| `Merging.ChunkGroup` | src/encoder.rs:54-77 | a group of columns is cut into disjoint blocks of at most 4x4 aligned to its corner, covering it exactly |
| `Merging.MergeRun` | src/encoder.rs:45-82 | the columns sharing a run are split into maximal adjacent groups and cut into blocks that cover them exactly |
| `Merging.AverageQuality` | src/encoder.rs:120-146 | the average quality of the dirty cells of the block, 10.0 if there is none |
| `Merging.AverageBounds` | src/encoder.rs:120-146 | the average lies between the lowest and the highest quality |
| `Merging.AverageMovesEvenly` | src/encoder.rs:120-146 | it is the mean: moving one dirty cell's quality by x moves it by x divided by the number of dirty cells in the block |
| `Merging.AverageRises` | src/encoder.rs:120-146 | higher qualities of the cells never lower it |
| `Merging.Merge` | src/encoder.rs:23-85 | for every set of dirty cells, grid and gap: disjoint in-frame rectangles of at most 4x4 cells covering exactly the dirty and bridged cells, each a corner-aligned block of a maximal group of columns sharing a maximal run |
| `Merging.CutsEveryFourthRow` | src/encoder.rs:54-77 | two rows next to each other in a maximal run are in one rectangle unless the cut between them is a multiple of four rows from the top of the run |
| `Merging.CutsEveryFourthColumn` | src/encoder.rs:54-77 | the same for neighbouring columns that share a run, counted from the leftmost |
| `Merging.CutsBetweenStretches` | src/encoder.rs:45-82 | neighbouring columns with different runs never share a rectangle |
| `Merging.MergePaintsFilled` | src/encoder.rs:23-85 | every pixel of a dirty or bridged cell lies in exactly one tile, every other pixel in none |
| `Merging.RepresentativesDistinct` | src/tile.rs:379-383 | no two tiles of a merge share their representative cell |
| `Merging.SingleCellIsDirty` | src/encoder.rs:54-77 | a single-cell tile is a dirty cell with that cell's own quality |
| `Merging.SmallGapsLeaveNoCleanColumn` | src/encoder.rs:54-146 | for `merge_gap` <= 2 every tile has a dirty cell in each of its columns |
| `Merging.LargeGapLeavesCleanChunk` | src/encoder.rs:120-146 | for `merge_gap` >= 3 a tile without a dirty cell does occur, at quality 10.0 |
| `Merging.MergeSizeBound` | src/encoder.rs:11-12 | a merge has at least one tile per sixteen dirty cells |
| `Detection.MarkingIsExact` | src/diff.rs:91-121 | a nonempty in-frame region marks exactly the cells whose rectangle it meets |
| `Detection.MarkingOfAnyRegion` | src/diff.rs:91-121 | for every region, empty ones, overflowing ones and ones beyond the frame included: exactly the cells are marked that it meets once a corner beyond the frame has been moved to the nearest pixel of the frame |
| `Detection.MarkingInRangeIff` | src/diff.rs:95-117 | the marking loop stays in range for all in-frame regions exactly when the frame is as wide as the configured columns or has one row of cells |
| `DiffDetectors.DiffDetector.MarkDamage` | src/diff.rs:91-121 | after the loops a cell is marked exactly when some region visits it |
| `DiffDetectors.DiffDetector.Examine` | src/diff.rs:179-265 | one cell's skip, two-stage hash, dynamic test, throttling and quality |
| `DiffDetectors.DiffDetector.DetectChanges` | src/diff.rs:50-428 | the whole pass maps every cell by the one-cell transition and returns exactly the cells to send, in order, with their rectangles and qualities |
| `DiffDetectors.DiffDetector.ForceRedetectTile` | src/diff.rs:470-478 | resets one cell's hashes and send frame and arms it; no other cell changes |
| `DiffDetectors.DiffDetector.InvalidateTiles` | src/diff.rs:481-489 | resets and uncaches exactly the listed cells that exist |
| `DiffDetectors.DiffDetector.InvalidateCache` | src/diff.rs:494-503 | uncaches every cell and resets exactly those last sent as dynamic |
| `DiffDetectors.DiffDetector.Reset` | src/diff.rs:451-461 | returns to the initial state |
| `DetectionRuns.ReachableInv` | src/diff.rs:344-380 | in every run, whatever is throttled, each cell's two hashes come from one and the same content, or all its hashes are zero and the cell is armed, and what was last sent is the baseline, or was sent as dynamic, or predates the last reset |
| `DetectionRuns.DynamicMeansSentBefore` | src/diff.rs:213-217 | in every run a changed cell is dynamic exactly when it was sent since its last reset |
| `DetectionRuns.IdleCellIsDynamic` | docs/DEVELOPMENT.md:83 | a cell that sat still for any number of frames is dynamic on its next change exactly when it had been sent since its last reset, against the documented rule |
| `SendHistories.SentIffDue` | src/diff.rs:213-232 | in every run, from the history alone: after the first frame a changed cell is sent at once if its last sending was its first since a reset, else when `target_fps / dynamic_tile_fps` frames have passed since its last sending, and if not sent since its last reset, when the detector has seen `target_fps / static_tile_fps` frames |
| `SendHistories.QualityOfSent` | src/diff.rs:235-245 | in every run: a cell sent has `webp_quality_high` times the scale if it has not been sent since its last reset, first frames, losses and refreshed cells included, and `webp_quality_low` times the scale otherwise, limited to 1 to 100 |
| `SendHistories.QualityOfEmitted` | src/diff.rs:235-245 | the same of each single-cell tile that leaves the merger |
| `SendHistories.EmittedQualityRises` | src/diff.rs:235-245 | of one frame cut at two scales, the tile of each rectangle has at the higher scale at least the quality it has at the lower |
| `DetectionRuns.ReArmedIff` | src/diff.rs:463-489 | an invalidated cell is sent by the next frame, whatever damage, content and history, exactly when the frame number has reached the static interval and neither hash is zero |
| `DetectionRuns.InvalidatedAreSent` | src/diff.rs:481-489 | after `invalidate_tiles`, the next frame returns each listed cell that exists exactly when its number has reached the static interval and neither hash is zero |
| `DetectionRuns.ReArmedOnce` | src/diff.rs:304-308 | the flag bypasses the damage skip for exactly one frame |
| `DetectionRuns.ThrottledReArmIsLost` | src/diff.rs:371-380 | a throttled forced resend is never made up for while the content stays the same |
| `DetectionRuns.RefreshConverges` | src/diff.rs:494-503 | in every run in which no frame throttles an armed cell, one refresh and one frame leave every cell's last-sent content equal to its baseline |
| `DetectionRuns.StaleAfterRefresh` | src/diff.rs:494-503 | with a static interval of three or more, the run that shows A, loses it, shows B, refreshes and shows B ends with baseline B and A last sent |
| `DetectionRuns.AlwaysConvergesIff` | src/diff.rs:494-503 | every run that ends in a refresh and a frame converges on every cell exactly when the static interval is at most two frames |
| `DetectionRuns.StaticAfterFirstWasReset` | src/diff.rs:213-245 | in every run a changed cell that is not dynamic on a later frame has not been sent since its last reset, and is still armed exactly when it has no baseline |
| `DetectionRuns.ShortIntervalIsPrompt` | src/diff.rs:219-232 | with a static interval of at most two frames no frame of any run throttles an armed cell |
| `DeltaStream.DrawnPixel` | src/tile_extract.rs:15-80 | drawing extracted rectangles in any order sets exactly the covered pixels to the frame's |
| `Baselines.UnchangedKeepsSample` | src/diff.rs:179-211 | with accurate damage a cell found unchanged by a frame differs from its baseline in unsampled rows only |
| `Baselines.BaselineFollowsFrames` | src/diff.rs:344-380 | over every run, throttled or not, every baseline has the sampled rows of the last frame, and right after a frame every cell has one |
| `Baselines.UndetectedIsUnsampled` | src/diff.rs:179-211 | over every run, throttled or not, a cell that a frame is not found to change shows the same pixels as before on every sampled row |
| `Baselines.BaselineIsLastFound` | src/diff.rs:350-380 | in every run each cell has been found changed by some frame, and its baseline, unless reset since, is what that frame showed |
| `Baselines.OnePixelChangeIsDetected` | src/diff.rs:179-211 | over every run under the real hash, a frame that shows a cell, not outside the damage, with one pixel of a sampled row changed since the frame last found to change the cell is found to change it |
| `Baselines.WordChangeIsDetected` | src/tile.rs:143-251 | over every run under the real hash, a frame in which a cell, not outside the damage, differs within one aligned word of the sampled rows, and within one of all rows, from the frame last found to change the cell is found to change it |
| `Baselines.GradualIsFollowed` | src/diff.rs:179-211 | in every run, with losses and refreshes, in which each frame changes at most one pixel of a cell, in a sampled row, the real hash misses no change: the baseline is what the last frame shows |
| `Baselines.EngineConvergesIff` | src/diff.rs:494-503 | under the real hash a refresh and a frame converge in every run exactly when the static interval is at most two frames |
| `DeltaStream.FrameRefines` | src/diff.rs:143-302 | one frame leaves the client equal to the frame on the sampled rows of every cell it is owed nothing for, and on all of every cell reported changed, throttled or not |
| `DeltaStream.StreamMirrors` | src/diff.rs:143-302 | the same after every step of every stream of frames, refreshes, losses and resizes, from any initial screen |
| `DeltaStream.UnthrottledStreamMirrors` | src/diff.rs:219-232 | without throttling the client shows the last frame on every sampled row throughout every stream, losses included |
| `DeltaStream.RefreshMirrors` | src/diff.rs:494-503 | over every stream, throttled or not, in which no frame throttles an armed cell, the client shows a frame that begins with a refresh on every sampled row, whatever was lost or held back before |
| `DeltaStream.RefreshMirrorsIff` | src/diff.rs:494-503 | a frame that begins with a refresh leaves the client showing it on every sampled row, in all streams, exactly when the static interval is at most two frames |
| `EncodingPools.ActConserves` | src/encoding_pool.rs:28-101 | every step of every thread keeps how often each result is queued, held, buffered or collected in all |
| `EncodingPools.RunInvariant` | src/encoding_pool.rs:28-122 | over every interleaving channels stay within 2n, each result is conserved, and each step lowers a measure of five steps per task |
| `EncodingPools.PoolCompletesIff` | src/encoding_pool.rs:28-122 | every maximal run collects every result exactly as often as due if at most 5n tasks are submitted, and is stuck in submission with nothing collected otherwise |
| `EncodingPools.FinishedPoolCollects` | src/encoding_pool.rs:103-122 | what a completed run collects is the tasks' results in some order, each once |
| `EncodingPools.Run` | src/encoding_pool.rs:27-122 | the threads take possible steps in any order until none is possible, and the run it reports is a schedule of the pool |
| `Pipelines.ReorderedMerge` | src/pipeline.rs:144-170 | a merge stays one under any sorting |
| `Pipelines.Collect` | src/pipeline.rs:227-231 | runs the pool to its end: all tasks are submitted exactly when there are at most five a worker, and then the result of each has been collected once |
| `Pipelines.EncodeTiles` | src/pipeline.rs:189-299 | returns exactly when at most five tiles a worker are not cached; then every tile has its cached bytes, or its own pool result whatever the order of results, or the fallback when that is empty |
| `Pipelines.Route` | src/pipeline.rs:231-245 | routing by representative cell puts each result at its tile |
| `Pipelines.CollectCells` | src/pipeline.rs:179-182 | the cells to acknowledge are exactly the cells of the tiles, each once |
| `Pipelines.Pipeline.constructor` | src/pipeline.rs:53-69 | a new pipeline in its initial state, with a worker a processor and at least four |
| `Pipelines.Pipeline.Admit` | src/pipeline.rs:104-120 | resize, epoch, header and refresh bookkeeping |
| `Pipelines.Pipeline.StoreAll` | src/pipeline.rs:301-311 | exactly the single-cell tiles with bytes are cached, under the cell's current hash |
| `Pipelines.Pipeline.Invalidate` | src/pipeline.rs:79-86 | cells of the current epoch are invalidated; a stale epoch changes nothing |
| `Pipelines.Pipeline.SetQualityScale` | src/pipeline.rs:92-94 | sets the detector's quality scale and nothing else |
| `Pipelines.Pipeline.Process` | src/pipeline.rs:100-324 | returns exactly when at most five tiles a worker are not cached; then nothing exactly when there is neither header nor changed cell, otherwise a merge of exactly the cells detected, each tile with its bytes, the covered cells, and the new state |
| `Refreshes.RefreshIff` | src/pipeline.rs:104-120 | a frame of a new size resets the detector and restarts the clock; one of the same size begins with a refresh exactly when 1000 ms have passed on the clock, and otherwise leaves cells and clock alone |
| `Refreshes.RefreshWithinASecond` | src/pipeline.rs:116-120 | of two frames of one size at least 1000 ms apart in a run, some frame after the first and up to the second meets the detector with the cache invalidated, and the clock restarts |
| `Refreshes.NoRefreshSooner` | src/pipeline.rs:116-120 | less than 1000 ms after a resize or a refresh a frame of that size leaves the cells alone |
| `Refreshes.RefreshSendsDynamic` | src/diff.rs:494-503 | a frame that begins with a refresh has in its batch every cell last sent as dynamic, once the frame number has reached the static interval |
| `Refreshes.RefreshSendsAtHighQuality` | src/diff.rs:494-503 | and sends it at the high quality |
| `Refreshes.DynamicIsRefreshed` | src/pipeline.rs:116-120 | within 1000 ms of any frame, at an unchanged size, some frame has in its batch every cell that had last been sent as dynamic when it came, once frame numbers have reached the static interval |
| `CallHistories.HeadersFollow` | src/pipeline.rs:104-114 | in every run the last size announced is that of the last frame, and a new epoch begins with every header but the first |
| `CallHistories.LastCallAnnounces` | src/pipeline.rs:104-114 | a frame announces its size exactly when it is not the last one announced, and its batch carries the number of headers so far |
| `CallHistories.RunCaches` | src/pipeline.rs:301-311 | in every run a cell's cached bytes are those last sent for the cell alone, under the hash of what it showed, unless a loss of the cell, a resize or a refresh has come since |
| `CallHistories.ServedIff` | src/pipeline.rs:192-201 | a single-cell tile is served those bytes exactly when they have not been dropped and the cell shows content of that hash, and is encoded otherwise |
| `CallHistories.MergedIsEncoded` | src/pipeline.rs:144-157 | a tile of several cells is always encoded |
| `PipelineRuns.ReachableCache` | src/pipeline.rs:301-311 | in every run of frames, resizes, refreshes and losses, cached bytes were encoded from content of that cell's size with the cached hash |
| `PipelineRuns.CacheAgreesWithReencoding` | src/pipeline.rs:192-201 | whatever bytes a tile is sent with were encoded from content of its size with the hash of what it shows now |
| `PipelineRuns.StaticIsReencoded` | src/pipeline.rs:192-201 | a single cell at static quality after the first frame is never served from the cache |
| `PipelineRuns.PipelineMirrors` | src/pipeline.rs:79-324 | over every run of frames and losses with a lossless codec, throttled or not, drawing the decoded tiles of each emitted frame shows the last frame on the sampled rows of every cell the client is owed nothing for, and on all of every cell reported changed |
| `PipelineRuns.PipelineConverges` | src/pipeline.rs:116-120 | without throttling each frame, and otherwise each frame that begins with a refresh, ends up on screen on every sampled row, if no frame throttles an armed cell |
| `PipelineRuns.FullFrameDeadlocksPool` | src/pipeline.rs:189-231 | with more than 80 cells per worker every run of the pool on a first frame ends in deadlock |
| `PipelineRuns.FullFrameNeverReturns` | src/pipeline.rs:189-231 | on a first frame with more than 80 cells per worker more than five tiles a worker are not cached, so `process` does not return |
| `PipelineRuns.DefaultFrameExceedsFourWorkers` | src/pipeline.rs:57-58 | a 1920x1080 frame at 20 columns has 400 cells, more than 80 for each of four workers |
| `AckTrackers.AckTracker.Register` | src/transport.rs:50-61 | the next number modulo 2^32, recorded over whatever had it |
| `AckTrackers.AckTracker.Ack` | src/transport.rs:65-67 | removes that batch only; unknown numbers are ignored |
| `AckTrackers.AckTracker.TakeExpired` | src/transport.rs:70-82 | removes and reports exactly the batches older than the timeout, each once, with their epoch and cells |
| `AckTrackers.SendLoop.Pass` | src/stream.rs:71-115 | one pass: acknowledged batches are never reported lost, expired ones are all reported, the new frame is registered last |
| `Sessions.StepsFollowTracker` | src/transport.rs:50-82 | the session's register, acknowledge and expire steps do what the tracker's methods promise |
| `Expiries.SweepIsExact` | src/transport.rs:70-82 | a sweep leaves a batch in flight exactly when it was registered at most 150 ms before, and reports it lost otherwise |
| `Expiries.TimelyAckIsNeverLost` | src/transport.rs:65-82 | in every run a batch acknowledged before any sweep has come more than 150 ms after its registration is never among the lost ones |
| `Sessions.NewGridIsCovered` | src/pipeline.rs:104-114 | the first frame of a grid covers exactly all of its cells |
| `Sessions.StepKeeps` | src/stream.rs:71-177 | each of processing, registering, acknowledging, expiring and recovering keeps every cell acknowledged, underway or armed |
| `Sessions.NoCellIsOrphaned` | src/stream.rs:71-177 | in every run in which no frame throttles an armed cell, every cell of the current grid whose latest batch is not acknowledged is queued, in flight, on its way back in the current epoch, or armed |
| `Sessions.QuietMeansAcknowledged` | src/stream.rs:71-177 | a session at rest has had the latest batch of every cell acknowledged |
| `Orphans.LongIntervalOrphans` | src/diff.rs:219-232 | with a static interval of three or more, for every codec and every hash that some pixel does not send to zero, there is a run with a clock that never steps back that orphans a cell |
| `Orphans.NeverOrphansIff` | src/diff.rs:219-232 | for every such codec and hash, no run orphans a cell exactly when the static interval is at most two frames |
| `Orphans.DefaultsOrphanACell` | src/config.rs:53-61 | with 60 and 16 frames per second and the real hash some run orphans a cell |
| `SessionLogs.RunLogged` | src/pipeline.rs:179-182 | in every run the latest batch recorded for a cell is the last one emitted that covers it, and later ones are of the same grid |
| `SessionLogs.RunNumbered` | src/transport.rs:50-61 | in every run batches are registered in the order they were made, under consecutive numbers |
| `SessionLogs.RunPictures` | src/pipeline.rs:189-299 | in every run each batch's decoded tiles are disjoint cutouts of its frame that hold exactly its cells |
| `SessionLogs.RunIsIdeal` | src/stream.rs:71-177 | in every run, drawing every batch in order shows at each pixel the frame of the last batch that covered its cell |
| `Wire.EncodeHeader` | src/protocol.rs:36-44 | a header exactly for sizes that fit 16 bits, and the client reads it back |
| `Wire.HeaderRoundTrip` | docs/client-examples/client.html:621-627 | the client reads a header back as the same size |
| `Wire.SeqRoundTrip` | src/protocol.rs:47-53 | a sequence packet is always read as one, with its number and the count cut to 32 bits |
| `Wire.AckRoundTrip` | src/protocol.rs:56-58 | acknowledgements are exactly the four-byte messages, one for each number |
| `Wire.PackTiles` | src/protocol.rs:62-92 | tiles in order, none split, in nonempty packets of at most 8000 bytes unless one tile alone exceeds it, and no packet has room for the next packet's first tile |
| `Wire.GreedyIsMinimal` | src/protocol.rs:62-92 | no other acceptable packing in order uses fewer packets |
| `Wire.GreedyIsUnique` | src/protocol.rs:62-92 | the packets are determined by the tiles |
| `Wire.ParseRoundTrip` | docs/client-examples/client.html:640-682 | the client's loop reads a packed group back as the same tiles in the same order |
| `Wire.DispatchIff` | docs/client-examples/client.html:619-638 | a tile packet is read as its tiles exactly when its first tile's length is not 0xFFFE or 0xFFFF modulo 2^16 |
| `Wire.LongTileIsLost` | docs/client-examples/client.html:619-638 | a tile of 65526 image bytes sent on its own is taken for an announcement, one of 65527 for a header, and nothing of it arrives |
| `Wire.SendTiles` | src/transport.rs:100-121 | a batch is its announcement followed by the packed tiles |
| `Wire.BatchRoundTrip` | src/transport.rs:100-121 | a batch arrives as its announcement and exactly its tiles if and only if no packet's first length looks like a marker |
| `Wire.SeenIsExactIff` | src/protocol.rs:74-78 | coordinates survive exactly when they fit 16 bits |
| `Wire.TileLayout` | src/protocol.rs:62-92 | a tile on the wire: length, coordinates and size as little-endian words at their offsets, then the image |
| `Wire.ControlLayout` | src/protocol.rs:36-58 | headers, announcements and acknowledgements byte by byte |
| `InputEvents.DecodeIff` | src/protocol.rs:162-202 | decoding inverts encoding and accepts nothing else: each event has exactly one message |
| `InputEvents.MotionLayout` | src/protocol.rs:162-202 | the message of a motion byte by byte |
| `InputEvents.AxisLayout` | src/protocol.rs:162-202 | of a scroll, in two's complement |
| `InputEvents.KeyLayout` | src/protocol.rs:162-202 | of a key |
| `InputEvents.ButtonLayout` | src/protocol.rs:162-202 | of each button |
| `Clients.Page.OnMessage` | docs/client-examples/client.html:614-682 | the handler, with its parsing loop, does what the message means: a new batch, or decodes started under the current one |
| `Clients.Page.OnDecoded` | docs/client-examples/client.html:472-480 | a finished decode counts down its own batch and acknowledges at zero or below; a failed one does not |
| `Clients.AcksAreCounted` | docs/client-examples/client.html:472-480 | for any messages and any order of decodes, the acknowledgements of a batch are a function of its tile count and its decoded tiles alone |
| `Clients.ClientFollows` | docs/client-examples/client.html:633-658 | batches and the tiles attributed to them are as the messages say, whatever has been decoded |
| `Clients.ChannelIsAttributed` | src/transport.rs:100-121 | on the channel tiles only ever follow an announcement |
| `Clients.AckedOnceIffDecoded` | docs/client-examples/client.html:472-680 | with in-order delivery a batch is acknowledged at most once, and exactly when all of its tiles have been decoded |
| `Canvases.Display.RenderFrame` | docs/client-examples/client.html:280-304 | paints the waiting tiles in the order in which their decodes finished, once there is a canvas |
| `Canvases.Display.InitFrame` | docs/client-examples/client.html:341-348 | a new canvas; tiles that wait stay waiting |
| `Canvases.PaintedInOrder` | docs/client-examples/client.html:656-660 | in every run the canvas and the waiting tiles hold, in the order of completion, each tile decoded so far once, except those painted on a canvas that was replaced |
| `Canvases.RunCanvas` | docs/client-examples/client.html:656-660 | in every run every decoded tile of a batch announced since the last header is on the canvas or waits for the next animation frame, and only decoded tiles are or do |
| `Canvases.LastOverShows` | docs/client-examples/client.html:276-303 | a pixel shows the last tile drawn over it |
| `Deliveries.LastCompletedShows` | docs/client-examples/client.html:656-660 | for every order of decodes, a pixel shows the frame of the batch whose tile was painted last over it, and that batch covers its cell |
| `Deliveries.QuietShowsLatest` | src/stream.rs:71-177 | once a session is at rest and the page has painted what it decoded, every pixel whose tiles were painted in the order of their batches shows the frame of the last batch that covered its cell, and that batch is acknowledged |
| `Deliveries.ShowsLatestIff` | docs/client-examples/client.html:286-293 | whenever a pixel has been painted: it shows the latest batch of its cell if the tile painted last over it is of that batch, and where no other frame shows the pixel alike, only then |
| `Deliveries.QuietShowsLatestIff` | docs/client-examples/client.html:656-660 | in every run at rest, whatever the order of decodes, the latest batch of a cell is acknowledged, a pixel of the cell shows it if the tile painted last over the pixel is of that batch, and where no other frame shows the pixel alike, if and only if it is; tiles painted in the order of their batches end with it |
| `Deliveries.HeardIsGenuine` | src/stream.rs:80-82 | acknowledgements by number are for the batch that bears it, while no number has been used twice |
| `Deliveries.QuietShowsDesktop` | src/stream.rs:71-177 | end to end: once a session and the page are at rest, the browser shows the last frame at each pixel of a sampled row over which the tile painted last is of the latest batch of its cell, if the client is owed nothing for the cell or that frame began with a refresh |
| `LateDecodes.LateDecodeShowsOld` | docs/client-examples/client.html:656-660 | for every two pixels with different nonzero hashes and every lossless codec whose encodes of one pixel stay below 65526 bytes there is an on-time run, with a clock that never steps back, in which all is received, painted and acknowledged, and the browser shows the first pixel although the latest batch shows the second |
| `LateDecodes.LateDecodeHappens` | docs/client-examples/client.html:656-660 | with the real hash there is such a run for every configuration |
| `Bandwidth.BandwidthController.Sample` | src/bandwidth.rs:54-71 | one sample, staying within the floor and full quality |
| `Bandwidth.MoreCongestionNeverHelps` | src/bandwidth.rs:54-71 | of two links, the one with at least as much buffered at every sample never has the higher scale |
| `Bandwidth.MovesExactly` | src/bandwidth.rs:54-71 | every move of the scale from the samples alone: three twentieths down above 256 KiB, one up at every third sample in a row below 32 KiB, none otherwise |
| `Bandwidth.RisesAfterThreeClear` | src/bandwidth.rs:54-71 | the scale rises only at a sample that ends three clear ones in a row |
| `Bandwidth.FloorInFive` | src/bandwidth.rs:54-71 | five congested samples reach the floor from any state, and from full quality no fewer do |
| `Bandwidth.FullInFortyTwo` | src/bandwidth.rs:54-71 | forty-two clear samples restore full quality from any state, and from the floor no fewer do |
| `HeldInput.ModifierIff` | src/input.rs:44-53 | a modifier bit is set exactly while some key mapping to it is held |
| `HeldInput.HeldState.DepressedMask` | src/input.rs:120-122 | the fold over the held keys, in any order, is that mask |
| `HeldInput.HeldState.Key` | src/input.rs:78-100 | invalid and redundant events change nothing and are dropped; others are forwarded with the modifiers exactly when those changed |
| `HeldInput.HeldState.Button` | src/input.rs:103-109 | false exactly for redundant events |
| `HeldInput.HeldState.ReleaseAll` | src/input.rs:112-117 | drains every held key and button once and keeps the locks |
| `HeldInput.Injector.Inject` | src/input.rs:256-306 | the requests one event sends to the host, none for keys without a keyboard |
| `HeldInput.Injector.ReleaseAll` | src/input.rs:309-328 | the releases sent, with the modifiers cleared after the keys |
| `HeldInput.HostMirrorsHeld` | src/input.rs:256-328 | over every run the host's keys, buttons and last modifiers equal the held state, no event is redundant, and the lock bits are the parities of the forwarded lock presses |
| `HeldInput.NothingStaysDown` | src/input.rs:309-328 | releasing everything leaves nothing down on the host, with or without a keyboard |
| `HeldInput.KeyEventsAlternate` | src/input.rs:78-100 | a key's forwarded events strictly alternate from a press, and it is held exactly after an odd number of them |
| `InputHistories.KeyDownIff` | src/input.rs:78-117 | over every run a key is down on the host exactly when there is a keyboard, its code is 1 to 767 and its last event since everything was last released was a press |
| `InputHistories.ButtonDownIff` | src/input.rs:103-117 | the same of each button under its Linux code |
| `InputHistories.ModifiersAreHeldKeys` | src/input.rs:31-53 | the modifier bits the host was last told, each by the keys that set it, and no other bit |
| `InputHistories.ModifiersFollowKeys` | src/input.rs:294-303 | over every run modifiers are told right after a key, never before |
| `InputHistories.PointerFollows` | src/input.rs:256-306 | over every run the host is moved to exactly the client's positions and scrolled by exactly its nonzero distances, each axis with its own, in order |
| `InputHistories.PointerIsGrouped` | src/input.rs:256-328 | over every run each pointer event is closed by a frame before a key is sent, no frame is empty, and axes follow their source |
| `History.CircularBuffer.Push` | src/tile.rs:423-433 | one push with its shift and mask |
| `History.PushKeepsWindow` | src/tile.rs:423-433 | shift and mask keep the word equal to its window, including the 64-bit window where no mask is applied |
| `History.CircularBuffer.CountOnes` | src/tile.rs:436-447 | the ones of the used bits, including the 64-bit mask |
| `History.RefinesBoundedList` | src/tile.rs:413-457 | for every capacity and run of pushes the buffer holds the last min(pushes, capacity, 64) values and counts the trues among them |

## Left out

- Pipelines.Pipeline.Process: a call that waits forever is modelled as one that says it did not return; encoder panics and the five-second collection timeout, which cannot end a wait in submission, are left out.
- DiffDetectors.DiffDetector.DetectChanges: leaves out the inputs of the priority score (change history, last hash difference, unchanged frames), the returned change mask and the timing log; the parallel fold is one pass over the cells.
- Pipelines.Pipeline.MergeAndSort: sorts by an arbitrary permutation instead of the priority score, whose floating-point formula is not part of this model.
- Merging.AverageQuality: qualities are real numbers; rounding of 32-bit floats is not modelled.
- Bandwidth.BandwidthController.Sample: counts the scale in twentieths instead of 32-bit floats, so accumulated rounding is not modelled.
- Frames.ExtractTile: vector instructions are copies of 32, 16 or fewer bytes at a time; alignment and prefetching are not modelled.
- Hashing.HashVector: vector instructions are lane-wise arithmetic on 64-bit words; the scalar hash uses a library hasher that is not part of this model.
- HeldInput.HeldState.ReleaseAll: keys and buttons come out in any order instead of ascending, so the claims cover every order.
- Clients.AckedOnceIffDecoded: in-order delivery is a hypothesis, although the code opens the screen channel as unordered; the channel is taken to stay open, and statistics are left out.
- Canvases.RunCanvas: scaling to the visible canvas, the colour of a canvas before anything is painted, and errors while painting are left out.
- Sessions.NoCellIsOrphaned: a frame and its header are one queue entry, and header-only frames, which are never registered, do not enter the queue; the queues are unbounded.
- History.CircularBuffer.Push: the 64-bit word is an integer below 2^64, its shift a doubling modulo 2^64 and its mask a remainder.
- Encoding: a codec is an uninterpreted pair of functions, one for a worker and one for the main thread's second try; it is lossless only where pixels are claimed.
- The iteration order of hash maps and the order in which the pool returns results are arbitrary.
- The pool of reusable tile buffers, the pixel format conversion and the benchmark that picks `merge_gap` would add only easy members.
- Capture, DMA buffers, the compositor's protocol, WebRTC setup, signaling, authentication, the HTTP server, the clipboard, configuration and the page's own interface are I/O over code that cannot be seen here.
- Scroll conversion to axis values is floating point; the model forwards the wheel delta itself.
