# alpha_fixer pixel repair, modelled in Dafny

alpha_fixer rewrites RGBA images so that fully or partly transparent pixels
carry a sensible colour. For every decoded 4-channel image, `process_file`
(main.c) optionally runs two passes over the flat `width * height * 4` byte
buffer:

- **Recolouring.** A `visited` mask marks every pixel whose alpha exceeds
  `alpha_threshold` as resolved. The four neighbours of each resolved pixel
  (x+1, x-1, y+1, y-1) are pushed onto a FIFO queue of coordinate pairs. The
  queue is then drained. A pop that is outside the image or already resolved
  is dropped. Any other pop is resolved, its resolved neighbours are averaged
  (truncating) into its RGB, its alpha is set to 0, and its unresolved
  neighbours are pushed.
- **Make-opaque.** Every pixel whose alpha is at most the threshold gets
  alpha 255.

The model keeps the C data layout:

- The queue is an int buffer with `offset`, `length` and `capacity`, and its
  capacity doubles on overflow. Its meaning is a sequence of pairs.
- The image is a flat byte sequence addressed through `get_col`.
- The mask is a flat boolean sequence indexed by `y * width + x`.

Every operation is a pure function or a method over immutable values.

The recolouring pass is specified against a reference schedule.
`Recolor.ResolveOrder` pops a list of pending pixels front first, drops what
the loop drops, and queues what the loop queues. `Recolor.Replay` writes the
pixels of a schedule one after another, each with the truncated mean of the
neighbours resolved before it. `Recolor.RecolorTransparent` proves that the
pass resolves pixels in exactly the order `ResolveOrder` computes from the
seeds and produces exactly the image `Replay` computes from that order.

Modules, in dependency order:

| file | module | models |
|---|---|---|
| grid.dfy | `Grid` | pixel and byte addressing, `get_col`, writes through a `Col` |
| queue.dfy | `FrontierQueue` | `Queue`, `queue_init`, `queue_nonempty`, `queue_pop`, `queue_push` |
| visited_mask.dfy | `VisitedMask` | the `visited` buffer, its initial value, its history |
| neighbour_average.dfy | `NeighbourAverage` | the `new_col` / `num_cols` sums and the truncated mean |
| frontier.dfy | `Frontier` | what `process_pixel` pushes, and the two queue invariants |
| seeding.dfy | `Seeding` | the seeding loop |
| recolor.dfy | `Recolor` | `process_pixel`, the draining loop, the whole recolouring pass |
| opacity.dfy | `Opacity` | the make-opaque pass |
| pipeline.dfy | `Pipeline` | `process_file` between decoding and encoding |
| recolor_example.dfy | `RecolorExample` | the recolouring pass worked through on one 4 x 1 strip |

The source sums in `float` and divides by `num_cols`. Every sum is at most
4 * 255 = 1020, and every divisor is 1 to 4. All these values are exact in
`float`, and the quotient is never within 1/4 of an integer it does not equal.
So the cast to `unsigned char` gives the same value as natural-number division,
and the model uses natural-number sums and `/` (`NeighbourAverage.Mean`).

The division by `num_cols` never sees zero. The draining loop keeps an
invariant, `Frontier.SeededFrom`: every in-bounds entry still waiting in the
queue has a resolved neighbour. `Recolor.Visit` requires one, and so does
`NeighbourAverage.Mean`. An image with no pixel above the threshold seeds
nothing, so the loop never runs and the image is unchanged
(`Recolor.RecolorTransparent`), so an all-transparent image never reaches the
division either.

## Model

| member | source | states |
|---|---|---|
| Grid.ChannelOffset | main.c:59-62 | R, G, B, A sit at offsets 0..3 of a pixel: R at 0, A at 3 |
| Grid.CellIndex | main.c:65-68 | the mask position of an in-bounds pixel is below `width * height` |
| Grid.CellIndexIsRowMajor | main.c:65-68 | the mask position of (x, y) is `y * width + x` |
| Grid.CellIndexDecode | main.c:65-68 | the position decodes back: `% width` is x and `/ width` is y |
| Grid.CellIndexInjective | main.c:65-68 | two in-bounds pixels share a position iff they are the same pixel |
| Grid.CellIndexOnto | main.c:65-68 | every position below `width * height` belongs to some in-bounds pixel |
| Grid.ByteIndex | main.c:65-68 | every channel byte of an in-bounds pixel lies inside the `width * height * 4` buffer |
| Grid.ByteIndexIsRowMajor | main.c:65-68 | channel c of (x, y) is byte `(y * width + x) * 4` plus the channel's offset, the address `get_col` returns |
| Grid.SetCol | main.c:158-161 | writing through `col` makes the pixel read back as written; every byte of every other pixel is unchanged |
| Grid.SetColOther | main.c:158-161 | after writing one pixel, any other in-bounds pixel reads as before |
| FrontierQueue.Init | main.c:25-31 | a fresh queue satisfies the representation invariant, is empty, and has capacity 2 * 1024 |
| FrontierQueue.Nonempty | main.c:38 | `offset < length` holds iff unread pairs remain |
| FrontierQueue.Pop | main.c:40-45 | on a non-empty queue, returns the oldest pair and leaves the others in order; length and capacity unchanged |
| FrontierQueue.Grow | main.c:49-53 | the realloc doubles the capacity and keeps offset, length, the old buffer prefix and the unread pairs |
| FrontierQueue.RoomAfterGrowth | main.c:49-53 | after the growth check there is room for two more ints |
| FrontierQueue.Push | main.c:47-57 | appends (x, y) after the unread pairs, growing if needed; offset unchanged, length + 2, invariant kept |
| FrontierQueue.PairsAppend | main.c:54-56 | writing two ints at the end of the buffer adds exactly one pair at the end |
| FrontierQueue.PushAll | main.c:47-57 | pushing a sequence appends it, in order, after the unread pairs |
| FrontierQueue.PopAll | main.c:38-45 | popping until `queue_nonempty` fails returns the unread pairs in order |
| FrontierQueue.FifoRoundTrip | main.c:25-57 | whatever is pushed into a fresh queue, across any number of capacity doublings, pops out in the same order |
| VisitedMask.SetFlag | main.c:123-126 | `visited[y * width + x] = v` sets the flag of (x, y) to v and leaves every other pixel's flag alone |
| VisitedMask.SetFlagGrows | main.c:143 | setting a flag to 1 never clears another flag |
| VisitedMask.InitialMask | main.c:120-133 | after seeding, a pixel is resolved iff its alpha exceeds the threshold |
| VisitedMask.CountSetFlag | main.c:143 | resolving an unresolved pixel raises the number of resolved pixels by exactly one |
| VisitedMask.MaskAfterSpec | main.c:134-162 | after processing a list of pixels, a pixel is resolved iff it was resolved at the start or is in the list |
| VisitedMask.MaskAfterPrefix | main.c:134-162 | the mask only grows: a flag set at some point stays set later |
| VisitedMask.ClosedMaskIsFull | main.c:134-162 | in a mask with no resolved pixel next to an unresolved in-bounds one, one resolved pixel makes every pixel resolved |
| NeighbourAverage.Contribution | main.c:86-102 | a neighbour adds one to `num_cols` and its RGB to `new_col` iff it is in bounds and resolved |
| NeighbourAverage.NeighbourTotals | main.c:144-154 | over the four neighbours, `num_cols` is at most 4, each channel sum is at most 255 per count, and `num_cols >= 1` iff some neighbour is resolved |
| NeighbourAverage.Mean | main.c:155-160 | the truncated quotient m of a sum v by n satisfies `m * n <= v < (m + 1) * n` and fits a byte |
| NeighbourAverage.Average | main.c:155-161 | defined only when a resolved neighbour exists (non-zero divisor); the written alpha is 0 |
| NeighbourAverage.SumOfUniform | main.c:144-154 | when each of the four calls adds nothing or one copy of the same RGB, each channel sum is `num_cols` copies of that channel |
| NeighbourAverage.AverageOfUniform | main.c:144-160 | when all resolved neighbours share one RGB, the average is that RGB with alpha 0 |
| NeighbourAverage.SingleNeighbourCopied | main.c:144-160 | a pixel with exactly one resolved neighbour gets that neighbour's RGB and alpha 0 |
| NeighbourAverage.TotalsDataFrame | main.c:93-98 | the sums read only resolved neighbours: images that agree on resolved pixels give equal sums |
| NeighbourAverage.TotalsMaskFrame | main.c:93-98 | the sums depend on the mask only at the four neighbours |
| Frontier.Pending | main.c:90-101 | `process_pixel` pushes (x, y) iff it is in bounds and unresolved |
| Frontier.PendingNeighbours | main.c:147-154 | the four calls push at most four pixels, each a neighbour; a neighbour is pushed iff it is in bounds and unresolved |
| Frontier.NeighbourOfMarked | main.c:127-130 | every pushed neighbour of a resolved pixel has a resolved neighbour |
| Frontier.FrontierSkip | main.c:135-141 | dropping an out-of-bounds or resolved pop keeps every unresolved neighbour of a resolved pixel waiting |
| Frontier.SeededSkip | main.c:135-141 | dropping a pop keeps every remaining in-bounds entry next to a resolved pixel |
| Frontier.FrontierVisit | main.c:143-154 | resolving the popped pixel and pushing its unresolved neighbours keeps every unresolved neighbour of a resolved pixel waiting |
| Frontier.SeededVisit | main.c:143-154 | after the same step, every in-bounds waiting entry still has a resolved neighbour |
| Frontier.ClosedWhenDrained | main.c:134 | with the queue empty, no resolved pixel has an unresolved in-bounds neighbour |
| Seeding.OpaqueCellsSpec | main.c:120-126 | the scan meets exactly the pixels with alpha above the threshold, each once, in strictly increasing row-major order |
| Seeding.Seeds | main.c:127-130 | the seed pushes are four per opaque pixel: its x+1, x-1, y+1, y-1 neighbours in that order |
| Seeding.SeedsHaveMarkedNeighbour | main.c:127-130 | every in-bounds seed has a resolved neighbour |
| Seeding.SeedsCoverNeighbours | main.c:127-130 | every neighbour of every resolved pixel is among the seeds |
| Seeding.PushNeighbours | main.c:127-130 | the four pushes append the four neighbours in order and add 8 ints |
| Seeding.SeedPixel | main.c:122-131 | one scan step records whether the pixel is above the threshold and pushes its four neighbours exactly when it is |
| Seeding.SeedRow | main.c:121-132 | one row extends the mask and the seeds by the row's opaque pixels, in order |
| Seeding.Seed | main.c:120-133 | after seeding, the mask is resolved iff alpha > threshold, the queue holds the seeds of all opaque pixels in scan order, and there are exactly four pushes per resolved pixel |
| Recolor.ProcessPixel | main.c:86-102 | ignores out-of-bounds pixels, adds a resolved neighbour's RGB and one count, pushes an unresolved one; at most one push |
| Recolor.Visit | main.c:143-161 | resolves the popped pixel, pushes its unresolved neighbours in order, and writes the truncated mean of its resolved neighbours with alpha 0; requires a resolved neighbour |
| Recolor.WriteKeepsTotals | main.c:158-161 | writing an unresolved pixel changes no neighbour sum |
| Recolor.HistoryExtend | main.c:134-162 | processing a fresh popped pixel keeps every earlier pixel's recoloured value and leaves all others untouched |
| Recolor.SeedInvariants | main.c:120-133 | the seeded queue satisfies both queue invariants and is empty when no pixel is above the threshold |
| Recolor.ResolveOrder | main.c:134-162 | the first-in-first-out schedule: from a resolved prefix and a pending list, the pixels resolved are that prefix followed by more in-bounds pixels |
| Recolor.ScheduleSkip | main.c:135-142 | popping an entry that is outside the image or already resolved drops it and changes nothing else in the schedule |
| Recolor.ScheduleVisit | main.c:143-154 | popping an unresolved in-bounds entry resolves it next and queues its unresolved neighbours, x+1, x-1, y+1, y-1, behind every entry already waiting |
| Recolor.Replay | main.c:143-161 | replaying a schedule keeps the image size, and replaying no pixel leaves the image as it was |
| Recolor.ReplayExtend | main.c:143-161 | resolving one more pixel that has a resolved neighbour extends the replay by exactly that pixel's write: the truncated mean of the neighbours resolved before it, alpha 0 |
| Recolor.DrainStep | main.c:134-162 | one iteration keeps the loop invariant, keeps the state on the schedule (what is still to be resolved and the image so far agree with `ResolveOrder` and `Replay`), never clears a flag, and either resolves a new pixel or shrinks the unread queue |
| Recolor.DrainedCoversAll | main.c:134-162 | once drained, if any pixel was above the threshold, every pixel at or below it has been processed |
| Recolor.DrainedResult | main.c:134-163 | once drained, the processed pixels are in bounds, distinct and at or below the threshold, each holds its recoloured value, every other pixel is untouched, and the push count is bounded |
| Recolor.DrainedTransparent | main.c:134-163 | once drained, if any pixel was above the threshold, every pixel at or below it was processed and now has alpha 0 |
| Recolor.RecolorTransparent | main.c:117-163 | the pixels are resolved in exactly the order `ResolveOrder` computes from the seeds, and the output is exactly `Replay` of that order; hence only pixels at or below the threshold are processed, each at most once, each gets the truncated mean of the neighbours resolved before it with alpha 0, and every other pixel is untouched; with an opaque pixel every transparent pixel is processed, without one nothing changes; at most 4 * width * height pushes |
| Opacity.NormaliseBytesPixel | main.c:165-174 | per pixel, the byte-level pass keeps RGB and sets alpha to 255 iff it was at most the threshold |
| Opacity.NormaliseIdempotent | main.c:165-174 | running the pass twice gives the same buffer as running it once, for every threshold |
| Opacity.NormalisedAlpha | main.c:165-174 | after the pass every alpha is above the threshold or 255 |
| Opacity.NormaliseRow | main.c:167-172 | one row normalises exactly the pixels of that row |
| Opacity.MakeOpaque | main.c:165-174 | the loops produce the byte-level pass: RGB unchanged, alpha 255 iff it was at most the threshold, other alphas unchanged |
| Pipeline.ProcessFile | main.c:104-179 | skips exactly on a load failure or a channel count other than 4; otherwise keeps dimensions and writes exactly the replay of the recolouring schedule (when enabled) followed by the make-opaque pass (when enabled); pixels above the threshold are untouched, nothing changes with both passes off, and with make-opaque every alpha ends above the threshold or at 255 |
| RecolorExample.StripRecolour | main.c:117-163 | on the 4 x 1 strip red, transparent, transparent, blue at threshold 0, the schedule resolves (1, 0) and then (2, 0), and the replay yields (200, 0, 0, 0) and (100, 0, 50, 0) for them |
| RecolorExample.RecolorStrip | main.c:117-163 | the recolouring pass on that strip resolves (1, 0) before (2, 0) and returns exactly those sixteen bytes |

## Left out

- Directory walking and path building (`process_dir`, `process_path`, main.c:180-239): filesystem plumbing.
- Command-line parsing in `main` (main.c:241-275). The three globals (main.c:12-14) become the `Pipeline.Config` parameter.
- Image decoding and encoding (`stbi_load`, `stbi_write_png`): foreign library calls. The decoded buffer is an input (`Pipeline.Decoded`), and the buffer handed to the encoder is the result (`Pipeline.Outcome`).
- All `printf` diagnostics.
- `malloc`/`realloc` failure. Allocation always succeeds in the model.
- `free`, `queue_free`, `stbi_image_free`, the never-freed `visited` buffer and the buffer leaked by the channel-count rejection: memory release has no counterpart in a value model.
- Contents of fresh `malloc`/`realloc` memory. Zeros stand in for them. Queue slots at or beyond `length` are never read.
- Seeding.Seed: starts from an all-clear mask. The seeding loop writes every `visited` entry before any is read, but the model does not prove that for an arbitrary start.
- `int` and `size_t` overflow. Integers are unbounded. The model does not cover images whose `(y * width + x) * 4` does not fit an `int`, or a queue whose capacity doubling would overflow `size_t`.
- The `float` arithmetic. It is replaced by natural-number division, which is exact here for the reason given above.
- `col_set_placeholder` and `copy_col` (main.c:70-84): defined but never called.
