# GDR: what a halted RTOS image means

GDR runs inside GDB, reads the memory of a stopped FreeRTOS or RT-Thread target
and lays the result out. This project models the code that decides: the walkers
that must not be fooled by a corrupt image, the verdicts drawn from them, the
transport that carries the answer, and the exact layouts it is shown in. Target
memory is an immutable function from addresses to what can be read there; symbol
lookups, macros and the clock are parameters.

| file | component |
|---|---|
| `Apportion`, `ArenaSpans`, `GridShape`, `GridCells`, `GridFolds`, `RowExact`, `HeapGrid`, `FoldMeaning` | the heap bitmap's planner, from blocks to runs and folds |
| `Pixels`, `Raster`, `FoldBands`, `PixelMeaning` | the painter: cells, outlines, bands, bytes |
| `Legend`, `HeapLegend` | label wrapping, the legend, its entries and the endpoint strips |
| `HeapBitmap` | the image from plan to pixels, legend and labels included |
| `PointerMask`, `HeapWalks`, `WalkMeaning`, `CrossCheck`, `HealthyHeap`, `VerdictMeaning` | FreeRTOS heap walks and the three-way verdict |
| `ListWalks`, `Discovery`, `QueueRing` | list walkers, object discovery, queue dumps |
| `TableFit` | text tables |
| `Utf8`, `Base64`, `ChunkFrames`, `Transport` | chunked transport |
| `RtThreadHeap`, `CallDecode` | RT-Thread heaps and saved PCs |
| `BuildAttributes` | ULEB128 and the ARM build-attribute section |
| `Common`, `Arith`, `StableOrder` | shared vocabulary, the few product and quotient facts, stable sorting |

Loops of the program are methods with their loops, proved against recursive
specification functions; what those functions mean is then proved about them for
every input. The transport session is a class whose methods take the steps of a
state machine, and its theorems are about all runs of that machine.

Findings, where the code does less than its comments suggest; each is stated
exactly:

- The heap verdict is sound but misses one family of healthy heaps: a chain
  pointer equal to the heap protector's canary is stored as zero and read back as
  NULL (`HealthyHeap.HealthyIsOkIff`, with concrete heaps in
  `HealthyHeap.CanaryCollisionExample` and `HealthyHeap.RegionExample`). Such a
  heap is called corrupt, and if its first free block is the one at the canary it
  is even reported as a mismatch (`VerdictMeaning.CollisionVerdict`,
  `VerdictMeaning.HeadCollisionExample`).
- "Linear walk ended before the heap limit" can only be said of an extent that
  begins past its limit (`WalkMeaning.EndedEarlyIff`).
- An RT-Thread small_mem arena whose free blocks span less than a header, such as
  a completely used one, gets no byte counts (`RtThreadHeap.IntactCountsGivenIff`,
  with an arena in `RtThreadHeap.FullArenaExample`).
- A short answer does not replace a frozen longer one, so frames pulled after it
  still describe the old payload (`Transport.SourceAfterAsk`,
  `Transport.InlineAskKeepsOldFrames`).
- A queue whose read pointer is off its slots passes all pointer checks; its dump
  departs from the kernel's order as soon as the items listed reach the end of the
  storage (`QueueRing.DumpFollowsKernelIff`, with a ring in
  `QueueRing.MisalignedDumpExample`).
- The grid exceeds its pixel budget exactly when a cell is wider than the budget
  or the minimum width rounds up past it (`GridShape.BudgetKeptIff`, with an input
  in `GridShape.OverBudgetExample`), though by less than one cell.
- Outlines are wider than a one-pixel cell (`Raster.DividerFits`).

## Model

| member | source | states |
|---|---|---|
| `Apportion.SplitCells` | gdr/heapmap.py:179-198 | The counting loop computes the largest-remainder apportionment and its counts sum to exactly the cells available. |
| `Apportion.ExtraInRange` | gdr/heapmap.py:187-194 | The spare cells are fewer than the spans, never negative, and no more than the spans with a non-zero remainder. |
| `Apportion.CountsFacts` | gdr/heapmap.py:184-198 | The counts sum to the total; each is its floor, plus the reserved cell, plus one for a winner. |
| `Apportion.WinnersLead` | gdr/heapmap.py:195-197 | A span with a spare cell has a remainder at least as large as any without, and at equal remainders stands earlier. |
| `Apportion.QuotaRule` | gdr/heapmap.py:184-198 | Quota rule: apart from the reserved cell, a count is the floor or the ceiling of the exact share, and the share itself when whole. |
| `Apportion.CountsFloor` | gdr/heapmap.py:186-189 | No span goes negative and with reservation none goes without a cell. |
| `Apportion.LargerGetsNoFewer` | gdr/heapmap.py:194-197 | A larger span never gets fewer cells; equal spans differ by at most one cell, in favour of the earlier. |
| `Apportion.LeastDeviation` | gdr/heapmap.py:179-198 | Optimality: no allocation whatever of the same number of shared cells has a smaller total deviation from the exact shares. |
| `ArenaSpans.CutSpans` | gdr/heapmap.py:281-296 | For any blocks, overlapping or out of range, the sweep yields spans that tile the arena in order, each byte attributed to its owner or to a gap, no block named twice and no gap cut in two. |
| `ArenaSpans.OwnerUnique` | gdr/heapmap.py:283-294 | A byte has at most one owner: the first block over it in address and then input order. |
| `ArenaSpans.EveryByteOnce` | gdr/heapmap.py:281-296 | Each arena byte lies in exactly one span, a gap span exactly when no block covers it, else that of its owner. |
| `GridShape.Shape` | gdr/heapmap.py:163-175 | The shape: a portrait one-to-two grid, its columns clamped to the width limits with the lower one winning, rows just enough; it holds every wanted cell. |
| `GridShape.DesiredLeast` | gdr/heapmap.py:166 | The wanted cells are the fewest that give every span one and make a cell no larger than the smallest span, unless the cap is reached first. |
| `GridShape.PortraitShape` | gdr/heapmap.py:167-168 | Before any width limit the grid is about twice as high as wide: rows are the root of twice the wanted cells, and columns lie between half the rows and one and a half more. |
| `GridShape.WidthBudget` | gdr/heapmap.py:164-174 | However the width comes about, the pixel budget is never overrun by a whole cell. |
| `GridShape.BudgetKeptIff` | gdr/heapmap.py:164-175 | The planned width keeps the pixel budget if and only if one cell fits it and the minimum width rounded up to whole cells fits it. |
| `GridShape.OverBudgetExample` | gdr/heapmap.py:164-175 | A failing input: cells of 30 pixels in a budget of 200, both within what the command line takes, give at least 210 pixels, whatever is laid out. |
| `GridShape.Distribute` | gdr/heapmap.py:157-176 | The shape for the wanted cells, and rows times columns cells shared out by largest remainder with one at least per span. |
| `GridCells.LayRuns` | gdr/heapmap.py:303-308 | The run loop lays one run per span, in order, each as long as its count. |
| `GridCells.PlaceCells` | gdr/heapmap.py:309-317 | The cell loop records for every cell the one span it belongs to and its ordinal there. |
| `GridCells.RunsCoverGrid` | gdr/heapmap.py:303-308 | Runs are non-empty and consecutive from cell 0 to the last cell. |
| `GridCells.CellsFollowRuns` | gdr/heapmap.py:303-317 | A cell lies in exactly the run of its own span. |
| `GridCells.CellEndsAtNext` | gdr/heapmap.py:346-354 | Cells stand for consecutive stretches of the arena: each ends where the next begins, in exact rationals. |
| `GridFolds.FoldedRows` | gdr/heapmap.py:319-331 | The folded rows are the wholly unused ones in order, and none when every row is unused. What unused means in bytes is `FoldMeaning.FoldedRowsMeans`. |
| `GridFolds.GroupRows` | gdr/heapmap.py:332-337 | Grouping splits the folded rows into runs of consecutive rows, losing none. |
| `GridFolds.FoldGroup` | gdr/heapmap.py:338-372 | A fold carries its group: rows, kind free, unknown or mixed exactly by the spans touched, and bytes equal to end minus start. |
| `GridFolds.FoldRows` | gdr/heapmap.py:323-372 | The folds cover exactly the foldable rows of a grid that is not unused throughout, apart from each other. In bytes: `FoldMeaning.FoldedRowsMeans`. |
| `GridFolds.FoldsMaximal` | gdr/heapmap.py:332-337 | Maximal: the rows just before and after a fold are not wholly unused. |
| `FoldMeaning.CellsAreBytes` | gdr/heapmap.py:309-322 | A stretch of cells names exactly the owners of the bytes it stands for. |
| `FoldMeaning.FoldedRowsMeans` | gdr/heapmap.py:318-331 | In bytes: a row folds if and only if no byte of its stretch of the arena belongs to a used block, and some other row's stretch holds such a byte. |
| `FoldMeaning.FoldKindMeans` | gdr/heapmap.py:338-372 | In bytes: a band is free exactly when every byte it stands for has an owner, unknown exactly when none has, and its bytes are its extent. |
| `GridFolds.RaiseFolds` | gdr/heapmap.py:393-399 | Spare units go round the bands: each gets the even share, the first ones one more, and together exactly the spare units. |
| `GridFolds.BytesConserved` | gdr/heapmap.py:344-372 | Folded and kept bytes add up to the arena exactly. |
| `GridFolds.ExtentsAscend` | gdr/heapmap.py:344-372 | Fold extents stay in the arena, ascend and do not touch. |
| `RowExact.LayRows` | gdr/heapmap.py:217-243 | The row loop lays the rows one after the other, each filling its own cells. |
| `RowExact.WindowFull` | gdr/heapmap.py:219-229 | Every row window holds at least one piece, so the skip of an empty window never runs; the pieces make up the window. |
| `RowExact.RowFills` | gdr/heapmap.py:230-243 | A row's runs tile exactly its own cells and never cross a row boundary. |
| `RowExact.RowNames` | gdr/heapmap.py:222-227 | A run of a row names only spans that reach into the row's byte window. |
| `RowExact.RowShowsAll` | gdr/heapmap.py:231-241 | When the pieces of a window fit the columns, every piece keeps a cell, in order. |
| `RowExact.RowsTile` | gdr/heapmap.py:217-243 | The whole row-exact layout tiles the grid from cell 0 to the last cell. |
| `RowExact.WindowsTile` | gdr/heapmap.py:217-219 | The windows tile the arena, each of full length but a shorter last one. |
| `HeapGrid.GridLayout` | gdr/heapmap.py:253-406 | The planner in all its modes: empty arena, row-exact with its row cap as an error, and size-weighted with folds. |
| `HeapGrid.WeightedGrid` | gdr/heapmap.py:299-406 | The size-weighted layout: planned shape, largest-remainder counts, one run per span, exact folds raised to the legend. |
| `HeapGrid.RowExactGrid` | gdr/heapmap.py:201-250 | The row-exact layout, refused exactly above the row cap. |
| `HeapGrid.LegendUnits` | gdr/heapmap.py:373-392 | The band floor is the height, in grid units rounded up, of the legend plan over the same texts; none without a ranking. That it is the painter's legend is `HeapBitmap.LegendFits`. |
| `HeapGrid.RaisedHeights` | gdr/heapmap.py:393-399 | Kept rows and band heights together come to the larger of kept rows plus folds and the legend units. |
| `HeapGrid.RunsFillGrid` | gdr/heapmap.py:263-267 | In every mode the runs tile the grid to its last cell and name known blocks only: no trailing background. |
| `HeapGrid.LayoutConservesBytes` | gdr/heapmap.py:299-406 | In a weighted layout the folded and kept bytes add up to the arena. |
| `Pixels.FillRow` | gdr/heapmap.py:434-436 | A slice assignment of one colour changes exactly the pixels named. |
| `Pixels.Rectangle` | gdr/bitmapfont.py:291-294 | A rectangle of slice assignments changes exactly its pixels. |
| `Raster.DividerFits` | gdr/heapmap.py:51-58 | The outline stays inside its own cell exactly for cells of two pixels or more. |
| `PixelMeaning.DividerNearest` | gdr/heapmap.py:51-58 | The outline is two pixels wide in small cells, four in large ones, and in between the fifth of the cell rounded to nearest. |
| `Raster.PaintCells` | gdr/heapmap.py:422-428 | Runs paint colour and owner of exactly their cells; gaps stay background. Which colour a block has is `PixelMeaning.PixelMeans`. |
| `Raster.FillCells` | gdr/heapmap.py:429-436 | Every cell of the grid shows its colour on every one of its pixels. |
| `Raster.DrawBars` | gdr/heapmap.py:437-457 | Left and top bars are drawn exactly where neighbouring cells belong to different blocks, each inside the right or lower cell. |
| `Raster.DrawCorners` | gdr/heapmap.py:459-485 | A corner is closed exactly where a left bar from above meets a top bar from the left. |
| `Raster.PaintGrid` | gdr/heapmap.py:418-485 | The unfolded picture: cell colours, outlined where blocks meet, for every cell size at which outlines fit; there the buffer has exactly the size of the grid. |
| `FoldBands.Assemble` | gdr/heapmap.py:490-504 | The assembly loop shows each unit in turn: a kept row as painted, a band as hatch in phase with its height. |
| `FoldBands.IndexFolds` | gdr/heapmap.py:490-496 | The index lists, for each row, the folds that start there, and the covered rows are exactly the folded ones. |
| `FoldBands.HatchUnit` | gdr/heapmap.py:508-520 | One band row is a diagonal hatch of period four over its whole width. |
| `FoldBands.KeptOnceInOrder` | gdr/heapmap.py:497-503 | Every row no fold covers is painted exactly once, in order, and no other row is. |
| `FoldBands.UncoveredExact` | gdr/heapmap.py:490-503 | The kept rows are exactly those no fold covers, in ascending order. |
| `FoldBands.UnitsCount` | gdr/heapmap.py:497-504 | The painted units are the kept rows and the heights of the bands. |
| `FoldBands.PaintedHeight` | gdr/heapmap.py:373-399 | The painted height of a weighted layout: kept rows and folds stretched to the legend when folds exist, else its rows. |
| `FoldBands.SortedLaid` | gdr/heapmap.py:418 | Folds the planner laid are already in painting order. |
| `FoldBands.Bitmap` | gdr/heapmap.py:486-505 | Slicing, banding and joining give the bytes of the units and exactly the announced width and height. |
| `FoldBands.Rasterize` | gdr/heapmap.py:409-505 | The painter end to end, the empty layout included: the bytes depict the layout, from the cells of each run over the outlines to the units joined. What its pixels show is `PixelMeaning.PixelMeans`. |
| `PixelMeaning.EveryCellHas` | gdr/heapmap.py:263-267 | Every cell of a planned grid belongs to some block or to none, so every pixel of a kept row is accounted for. |
| `PixelMeaning.PixelMeans` | gdr/heapmap.py:418-505 | Every pixel of a kept row of the bitmap: background on the bars and corners between two blocks; off them background for no block, the free colour for a free block, the owner's colour for a used block whose owner is listed, the unknown colour for any other. |
| `PixelMeaning.CellHasBytes` | gdr/heapmap.py:303-317 | In a size-weighted layout the block of a cell is the owner of the bytes its stretch of the arena holds. |
| `HeapBitmap.LaidOutPaintable` | gdr/heapmap.py:253-406 | Every layout the planner makes can be painted. |
| `HeapBitmap.PaintHeap` | gdr/heapmap.py:409-505 | For every planned layout the bitmap has exactly the planned width and stretched height, and its pixels depict the layout; an empty arena gives one blank cell. |
| `HeapBitmap.UnitsPainted` | gdr/heapmap.py:497-505 | For planned layouts the painted units number exactly the planned height and show every row no fold covers, once and in order. |
| `HeapLegend.NotesAreHeaps` | gdr/heapmap.py:376-382 | Planner and painter add the same notes though they read them off layouts of different cell sizes: in every size-weighted layout the notes depend on the heap alone. |
| `HeapLegend.LegendEntries` | gdr/heapmap.py:617-630 | The entries are the ranking and the notes the heap itself calls for: an unowned byte, an incomplete walk. |
| `HeapBitmap.LegendFits` | gdr/heapmap.py:373-399 | The legend of the same texts, painted in any colours, is no taller than the bitmap the bands were stretched for. |
| `HeapBitmap.FoldedLegendFits` | gdr/heapmap.py:276-279 | Bitmap and legend stay aligned: wherever rows were folded, the canvas with the legend is no taller than the bitmap. |
| `HeapBitmap.RenderPixels` | gdr/heapmap.py:590-614 | The image up to its encoding: refused exactly above the row cap; otherwise the bitmap depicts the planned layout, the legend and the endpoint labels stand around it, and where rows were folded the legend adds no height. |
| `Legend.WrapLabel` | gdr/bitmapfont.py:41-62 | Every line fits the capacity; only spaces and commas are lost, the rest keeps its order; a field that fits a line is never cut. |
| `Legend.InkKeeps` | gdr/bitmapfont.py:41-62 | What wrapping preserves is every character but spaces and commas, as often as it stands in the label. |
| `Legend.WrapEnds` | gdr/bitmapfont.py:60-62 | Closing the last line leaves a wrapping that keeps everything. |
| `Legend.WrapEntries` | gdr/bitmapfont.py:240-244 | All entries are wrapped in order, each line in its entry's colour. |
| `Legend.CapacityLongest` | gdr/bitmapfont.py:211-223 | A line's capacity is the longest there is room for: in the image alone and, beyond the minimum, beside the bitmap. |
| `Legend.MakePlan` | gdr/bitmapfont.py:226-259 | The plan as a function of its inputs: every entry wrapped within capacity, two lanes exactly when one would exceed the budget, lanes just long enough and sizes just large enough. |
| `Legend.BoxInside` | gdr/bitmapfont.py:296-301 | Every line's box lies right of the bitmap, inside its lane and the legend's height. |
| `Legend.BoxesDisjoint` | gdr/bitmapfont.py:296-301 | Different lines never share a pixel. |
| `Legend.DrawText` | gdr/bitmapfont.py:151-168 | Text paints exactly its glyph pixels, inside its own box. |
| `Legend.Blit` | gdr/bitmapfont.py:284-289 | The bitmap survives as the sub-rectangle it is copied to, on a white canvas. |
| `Legend.AppendLegend` | gdr/bitmapfont.py:262-302 | The finished canvas: the bitmap top left, each line in its own box, white elsewhere. |
| `Legend.AppendEndpointLabels` | gdr/bitmapfont.py:177-208 | The bitmap survives between the strips and both labels are fully inside the widened canvas. |
| `PointerMask.RoundTrip` | freertos/heap.py:137-147 | The read-back recovers a non-null pointer unless it equals the canary, and then it reads as NULL. |
| `PointerMask.XorCancels` | freertos/heap.py:147 | Masking twice with the same value undoes itself. |
| `PointerMask.XorVanishes` | freertos/heap.py:145-147 | A masked value is zero exactly when it equals its mask. |
| `HeapWalks.CheckFreeBlock` | freertos/heap.py:560-588 | The checks before a free block is taken, in their order. |
| `HeapWalks.TopBit` | freertos/heap.py:665-681 | With the mask at the top bit of the size word, the allocation flag is that bit and the size the bits below it. |
| `HeapWalks.WalkFreeList` | freertos/heap.py:527-601 | The free-list loop computes the free walk, over every memory image. |
| `HeapWalks.WalkLinear` | freertos/heap.py:611-710 | The linear loop computes the extent walk, over every memory image. |
| `WalkMeaning.FreeWalkMeans` | freertos/heap.py:547-601 | The free walk is clean exactly when memory holds a complete chain within the bound, and then reports that chain with its bytes and count; largest and smallest are the true extremes of the blocks listed. |
| `WalkMeaning.LinearWalkMeans` | freertos/heap.py:639-710 | For every kind the linear walk is clean with nothing missing exactly when readable blocks make up the whole extent, a heap_5 end marker included, and then reports them; free bytes, blocks and holes are counted right always. |
| `WalkMeaning.HolesAreRuns` | freertos/heap.py:690-695 | Holes are the maximal runs of free blocks. |
| `WalkMeaning.EndedEarlyIff` | freertos/heap.py:707-709 | The final "ended before the heap limit" branch is reached only when the extent begins past its limit. |
| `CrossCheck.Snapshot` | freertos/heap.py:829-849 | The snapshot walks the chain first, then the extent against it, and judges both with the counter; what each verdict means is `VerdictMeaning.VerdictIff` and `VerdictMeaning.ComparedMeans`. |
| `CrossCheck.OkMeansSameAddresses` | freertos/heap.py:745-777 | "ok" means the chain and the extent name the same free blocks, with the allocation bit or without it. |
| `CrossCheck.OkMeansConsistent` | freertos/heap.py:713-777 | Soundness of "ok" for kinds 2, 4 and 5: blocks tile the extent, the chain visits exactly its free blocks with their sizes, and the counter is the extent minus the allocated bytes. |
| `VerdictMeaning.VerdictIff` | freertos/heap.py:729-744 | Which verdict when: corrupt exactly when a walk meets a fault, truncated exactly when none does and one outruns the bound, compared exactly when both are whole; heap_5 answers first unless its region was walked to its end. |
| `VerdictMeaning.ComparedMeans` | freertos/heap.py:745-777 | "ok" and every mismatch speak of a whole chain and a whole extent in memory: bytes before counts before addresses, with exactly their numbers, and the missing and unexpected addresses are exactly those. |
| `HealthyHeap.HealthyIsOkIff` | freertos/heap.py:713-777 | Completeness: a healthy heap_2, heap_4 or one-region heap_5 under the protector is called "ok" if and only if no chain pointer equals the canary. |
| `HealthyHeap.ClearMeansOk` | freertos/heap.py:527-710 | With a clear canary both walks of a healthy heap end clean, list its blocks and count its holes as the maximal free runs. |
| `HealthyHeap.CollisionMeansNotOk` | freertos/heap.py:145-147 | With a pointer equal to the canary the verdict is never "ok", for all three kinds. |
| `HealthyHeap.CanaryCollisionExample` | freertos/heap.py:145-147 | A concrete healthy heap_4 that is not called "ok". |
| `HealthyHeap.RegionExample` | freertos/heap.py:729-735 | A concrete one-region heap_5, its end marker eight bytes below the heap limit: "ok" for every canary but the two pointers of its chain. |
| `VerdictMeaning.UnwalkedMeans` | freertos/heap.py:544-547 | Where the geometry keeps a walk from starting the heap is never "ok", and a difference in bytes is reported exactly when the other walk is whole, or absent as well. |
| `VerdictMeaning.CollisionVerdict` | freertos/heap.py:137-147 | A healthy heap that meets its canary is called corrupt for a NULL pointer, except at its very first free block: then it is reported as a mismatch, with no chain bytes at all. |
| `VerdictMeaning.HeadCollisionExample` | freertos/heap.py:361-378 | A sound heap_4 whose first free block stands at the canary is reported as a mismatch in bytes. |
| `ListWalks.WalkListRaw` | freertos/diagnostics.py:328-395 | The raw list loop computes the raw walk; a missing head or layout is incomplete. |
| `ListWalks.RawWalkCleanIff` | freertos/diagnostics.py:352-395 | The raw walk is clean exactly when the sentinel is reached within the bound through non-null, in-range, readable nodes, and then lists that chain. |
| `ListWalks.RawWalkCutIff` | freertos/diagnostics.py:363-380 | The raw walk is cut short exactly on a list with more distinct healthy nodes than the bound; any list that is neither that nor a complete chain has a fault. |
| `ListWalks.ChainDistinct` | freertos/diagnostics.py:380-383 | A chain that comes back to its sentinel never visits a node twice, so no cyclic list is clean. |
| `ListWalks.IterList` | freertos/navigation.py:95-147 | The owner iterator yields what the iteration rules give, round by round. |
| `ListWalks.IterAgrees` | freertos/navigation.py:107-145 | On a clean list the iterator yields the converted owners of the walked items, in order. |
| `ListWalks.ListContainsItem` | freertos/navigation.py:1018-1040 | The membership loop computes the bounded scan. |
| `ListWalks.ContainsAgrees` | freertos/navigation.py:1025-1038 | On a clean list the scan finds exactly the walked items. |
| `ListWalks.ListChecks` | freertos/diagnostics.py:416-537 | All five checks in order, each passed exactly when the list is what it vouches for (sentinel value, complete chain, stored count equal to the chain, parked index, magic words) and skipped exactly when fields are missing or the list outruns the bound; without a list or offsets, all are skipped. |
| `ListWalks.IntegrityPassedIff` | freertos/diagnostics.py:466-471 | ListIntegrity is ok exactly on a complete chain within the bound. |
| `ListWalks.CountPassedIff` | freertos/diagnostics.py:473-487 | ListCount is ok exactly when the stored count is the length of a complete chain; a cut, cyclic or over-long list never is. |
| `ListWalks.StoredPasses` | freertos/diagnostics.py:447-537 | A list as the kernel leaves it, within the bound, is walked item by item with its owners, and no check fails on it; only those the build has no field for are skipped. |
| `ListWalks.MagicBytes` | freertos/diagnostics.py:398-404 | The integrity word is one byte repeated over the tick type, for all three widths. |
| `ListWalks.SentinelValues` | freertos/diagnostics.py:452 | The sentinel's value is the largest the tick type holds. |
| `ListWalks.CheckItemContainer` | freertos/diagnostics.py:655-682 | The container check of a task's list item. |
| `ListWalks.ContainerPassedIff` | freertos/diagnostics.py:662-674 | ItemContainer is ok exactly when the item stands on a complete chain of its container; the membership scan says the same. |
| `Discovery.ClassifyQueue` | freertos/navigation.py:486-548 | Exactly which queues stay unclassified; a classification is an inference exactly when no type code was to be had. Which kind is `Discovery.RefineMeans` and `Discovery.ListedUnder`. |
| `Discovery.Refine` | freertos/navigation.py:551-568 | Refinement changes kind and inference only and never leaves or enters the queue family. |
| `Discovery.RefineMeans` | freertos/navigation.py:506-568 | A queue-family guess gives way to the type code (1 and 4 mutex, 2 and 3 semaphore, else queue) or, without one, to the null head, the empty item and the item, in that order; where nothing can be read the guess stays. |
| `Discovery.DiscoverAll` | freertos/navigation.py:1296-1328 | The one-pass loop files exactly the records, kind by kind, in record order, with no empty group. |
| `Discovery.Discover` | freertos/navigation.py:1233-1293 | The per-kind loop lists exactly the records of its kind, in record order. |
| `Discovery.DiscoverBothWays` | freertos/navigation.py:1233-1328 | For all channel contents and kinds both loops give exactly the records, so the per-kind list is the one-pass group, or empty. |
| `Discovery.ListedUnder` | freertos/navigation.py:1233-1328 | An address seen is listed under exactly one kind: the one its queue's fields tell, or the first channel's guess where they tell nothing. |
| `Discovery.RecordsOnce` | freertos/navigation.py:1313-1327 | Each address has at most one record over all kinds. |
| `Discovery.RecordCombinesSightings` | freertos/navigation.py:1314-1327 | An address has a record exactly when non-zero and seen, and the record is what its own sightings combine to. |
| `Discovery.RecordsInSightingOrder` | freertos/navigation.py:1313-1327 | Records stand in the order in which their addresses were first reported. |
| `Discovery.CombineMeans` | freertos/navigation.py:1204-1230 | A record's source is its first channel, its name the first non-null one, its extra sources the later distinct channels in order. |
| `TableFit.NaturalWidths` | gdr/formatting.py:56-62 | Each column is as wide as its header and every cell under it, and no wider; cells past the headers have no column. |
| `TableFit.NextShrinkMeans` | gdr/formatting.py:73-89 | The chosen column precedes every other that can still give way: earlier in the elastic list, then wider, then further left. |
| `TableFit.ShrinkToFit` | gdr/formatting.py:92-117 | The greedy loop ends; it refuses exactly when the minimum widths do not fit, its inner refusal is unreachable, and otherwise the total is exactly the target or the natural widths stand. |
| `TableFit.LostBeforeCut` | gdr/formatting.py:79-89 | At every cut through the elastic list, with repeated headers too, the columns before it give all they can before any after it gives anything. |
| `TableFit.GreedyClosedForm` | gdr/formatting.py:92-117 | With distinct headers each elastic column loses the deficit left by all columns before it, clamped to its own slack; the others lose nothing. |
| `TableFit.TruncateCell` | gdr/formatting.py:120-125 | A cell that fits is kept; a longer one keeps its prefix and ends in the suffix at exactly the width. |
| `TableFit.LineLaidOut` | gdr/formatting.py:134-143 | A line of fitting cells has exactly the total width and shows each padded cell in its own column. |
| `TableFit.RenderTable` | gdr/formatting.py:128-144 | The output is the header line, the rule line and one line per row, each ended by a newline. What the lines hold is `TableFit.TableTabulates`. |
| `TableFit.LinesAligned` | gdr/formatting.py:128-144 | Header, rule and row lines all have the total width and show their cells column by column. |
| `TableFit.TableTabulates` | gdr/formatting.py:128-144 | Character by character: each line ends in a newline at the total width; a cell that fits stands whole and padded in its column, a longer one, in elastic columns only, keeps its front before two dots, and columns past a short row are blank; two blanks part the columns. |
| `TableFit.AlignedLengths` | gdr/formatting.py:128-144 | Aligned lines all have the one total width. |
| `TableFit.FormatTable` | gdr/formatting.py:147-167 | The whole table: exact target width when it must and can shrink, natural widths otherwise; its text is the header, the rule and each row, line by line and cell by cell. |
| `Utf8.DecodeUndoesEncode` | gdr/serialize.py:326 | Strict UTF-8 decoding undoes encoding, for every text. |
| `Utf8.EncodeUndoesDecode` | gdr/serialize.py:351 | Only encodings decode, so no two byte strings mean the same text. |
| `Base64.DecodeUndoesEncode` | gdr/serialize.py:351 | The lenient streaming decoder undoes Base64 encoding, for every byte string. |
| `Base64.ForeignSkipped` | gdr/serialize.py:351 | Characters outside the alphabet change nothing, wherever they stand: the decoder is the lenient one. |
| `Base64.EarlyPadSkipped` | gdr/serialize.py:351 | A pad before the second data character of a quad changes nothing. |
| `Base64.EncodedShape` | gdr/serialize.py:315-326 | Four printable characters for every started group of three bytes, none a quote or backslash. |
| `ChunkFrames.SlicesJoin` | gdr/serialize.py:327 | The slices lose nothing. |
| `ChunkFrames.SlicesFull` | gdr/serialize.py:327 | Every slice but the last is full and the last is not empty. |
| `ChunkFrames.ReassembleUndoesChunk` | gdr/serialize.py:320-355 | Reassembling all frames of a payload gives the payload, for every payload, chunk size and digest. |
| `ChunkFrames.ReassembleNeverMixes` | gdr/serialize.py:340-355 | With a collision-free digest, whatever slices stand under a meta frame, the result is its payload or an error. |
| `ChunkFrames.ReassembleIff` | gdr/serialize.py:340-355 | Reassembly gives a payload exactly when the joined slices are the Base64 of its bytes with the announced digest, and each error exactly when it is the first that applies. |
| `ChunkFrames.SlicesPrintable` | gdr/serialize.py:315-327 | No slice needs escaping. |
| `Transport.Session.NextGeneration` | gdr/api.py:76-85 | Bumps the counter and nothing else. |
| `Transport.Session.RememberChunkSnapshot` | gdr/api.py:455-459 | Clears the whole cache at the limit, even when the key is present, then stores the payload with its generation. |
| `Transport.Session.ChunkSnapshot` | gdr/api.py:462-469 | Serves the frozen payload of the current generation, or freezes a new one. |
| `Transport.Session.TransportResponse` | gdr/api.py:416-427 | Takes the Ask step: inline body, or the meta frame with the payload frozen. |
| `Transport.Session.ChunkResponse` | gdr/api.py:430-443 | Takes the Pull step: the frame asked for, or the out-of-range document. |
| `Transport.CacheBounded` | gdr/api.py:451-459 | On every run the cache holds at most eight entries. |
| `Transport.FrozenStays` | gdr/api.py:462-469 | A frozen payload stays through every run with no bump, no clear and no new chunked ask for its key. |
| `Transport.PulledFrame` | gdr/api.py:430-443 | Every frame pulled in such a run is that of the one frozen payload. |
| `Transport.PullConsistent` | gdr/api.py:416-443 | The meta frame and frames 1 to total, pulled anywhere in such a run, reassemble to exactly the payload asked for. |
| `Transport.PullsAnswered` | gdr/api.py:430-443 | Every in-range pull of such a run is answered with a slice. |
| `Transport.RoomKeepsFrozen` | gdr/api.py:455-459 | No clear happens as long as the run freezes no more payloads than the cache has room for. |
| `Transport.SourceAfterAsk` | gdr/api.py:416-427 | The frames pulled right after an ask describe its answer, whatever a new computation would give by then, exactly when the answer was chunked or that very payload was frozen already. |
| `Transport.InlineAskKeepsOldFrames` | gdr/api.py:422-427 | A short answer leaves an older chunked payload frozen: its frames are still served. |
| `Transport.BumpForgets` | gdr/api.py:464-469 | After a bump, whatever came before, no frozen payload is served again. |
| `RtThreadHeap.FollowSmallMem` | rtthread/diagnostics.py:500-571 | The small_mem loop; its revisit and out-of-range guards cannot fire, and its stop is exactly closed, out of budget or a bad header. |
| `RtThreadHeap.WalkSmallMemChain` | rtthread/diagnostics.py:484-593 | The finished walk record with its counts and holes; none exactly when the first header is not to be believed. |
| `RtThreadHeap.SmallBlocksTile` | rtthread/diagnostics.py:512-571 | Whatever memory holds, the blocks tile a prefix of the arena without gap or overlap. |
| `RtThreadHeap.SmallWalkConserves` | rtthread/diagnostics.py:500-593 | A clean walk has used spans plus free spans equal to the arena, and holes that are the free payloads. |
| `RtThreadHeap.SmallCountsGivenIff` | rtthread/diagnostics.py:474-481 | Exact byte counts are given exactly for clean walks whose free blocks span at least one header, and are then the used spans and the arena less a header. |
| `RtThreadHeap.LiveArenaWalksClean` | rtthread/diagnostics.py:512-571 | An arena whose headers lead from start to end within the budget walks clean, block by block. |
| `RtThreadHeap.StoredArenaReported` | rtthread/diagnostics.py:500-571 | An arena the allocator left in order is reported block by block: spans, which are in use and by whom, for both header variants. |
| `RtThreadHeap.HeaderBelievedIff` | rtthread/diagnostics.py:529-545 | A header is believed exactly when it carries no foreign magic and leads on inside the arena. |
| `RtThreadHeap.IntactCountsGivenIff` | rtthread/diagnostics.py:474-593 | In terms of memory: an intact arena gets its byte counts if and only if the blocks its headers mark free span at least one header. |
| `RtThreadHeap.FullArenaExample` | rtthread/diagnostics.py:474-481 | A failing input: one used block of 64 bytes fills the arena; its walk is clean and gives no byte counts. |
| `RtThreadHeap.FollowRing` | rtthread/diagnostics.py:672-729 | The memheap loop over the item ring, with the reason it stopped. |
| `RtThreadHeap.WalkMemheap` | rtthread/diagnostics.py:672-763 | The finished ring walk; none exactly when the head item itself cannot be believed. |
| `RtThreadHeap.RingTelescopes` | rtthread/diagnostics.py:730-737 | A closed ring telescopes: total is all spans and a header; with free spans of at least a header, used is the used spans and one header per free block and for the tailer. |
| `RtThreadHeap.RingCountsGivenIff` | rtthread/diagnostics.py:474-481 | The counts are given exactly when the ring closed and used bytes are not negative, as always with spans of at least a header. |
| `RtThreadHeap.LiveRingCloses` | rtthread/diagnostics.py:684-729 | A ring of live items leading back to its head within the budget is walked item by item and closes. |
| `RtThreadHeap.StoredRingReported` | rtthread/diagnostics.py:672-729 | A ring the allocator left in order closes and is reported item by item: spans, which are in use and by whom. |
| `RtThreadHeap.ItemBelievedIff` | rtthread/diagnostics.py:696-701 | An item is believed exactly when its link is readable and its magic, but for the low bit, is the heap's. |
| `RtThreadHeap.WalkSlabPages` | rtthread/diagnostics.py:766-850 | The page loop reports the maximal free runs of the pages read, the totals, truncation and the unreadable page. |
| `RtThreadHeap.PagesEndUnreadable` | rtthread/diagnostics.py:815-821 | The pages read are a readable prefix, ended by an unreadable page or the limit. |
| `RtThreadHeap.RunsOfMeans` | rtthread/diagnostics.py:815-835 | The runs are apart from each other and cover exactly the free pages. |
| `RtThreadHeap.RunsOfSum` | rtthread/diagnostics.py:815-835 | The runs hold as many pages as are free. |
| `RtThreadHeap.PageClass` | rtthread/diagnostics.py:820-821 | A page is free exactly when the two low bits of its descriptor are zero. |
| `CallDecode.PackRoundTrip` | rtthread/stackpc.py:77-78 | Reading a packed word gives it back, in both byte orders and at every width. |
| `CallDecode.WordRoundTrip` | rtthread/stackpc.py:155-159 | Packing a read word gives its bytes back, in both byte orders and at every width. |
| `CallDecode.WordDigits` | rtthread/stackpc.py:77-78 | The digits of a word to the base 256 are its bytes, from the first on in little-endian order and from the last on in big-endian order. |
| `CallDecode.BlIffEncoded` | rtthread/stackpc.py:81-100 | A word calls an address as ARM bl exactly when it is the BL encoding of the displacement under some condition other than 15. |
| `CallDecode.JalIffEncoded` | rtthread/stackpc.py:101-114 | A word calls an address as RISC-V jal through ra exactly when it is the JAL encoding of the displacement. |
| `CallDecode.ShownPcIsProven` | rtthread/stackpc.py:117-152 | A PC shown is non-zero, is what the slot holds, and carries its proof. |
| `CallDecode.SavedPcIff` | rtthread/stackpc.py:117-152 | Exactly which PC is shown and as what: the non-zero word in the slot, as started at the entry, else as switched when memory before it holds the encoding of a call to the switch routine, else as interrupted when it is symbolised. |
| `CallDecode.CooperativeSwitchDecodes` | rtthread/stackpc.py:117-152 | A thread that left through a call to the switch routine is decoded as exactly that, on both instruction sets and byte orders. |
| `QueueRing.IterQueueItems` | freertos/navigation.py:1387-1434 | The dump loop yields the items at the modulo positions with what memory holds there, cut to the payload limit; none when a field is unreadable or not positive. |
| `QueueRing.PositionInStorage` | freertos/navigation.py:1429 | Every position lies in the storage, wherever the read pointer stands. |
| `QueueRing.PositionsDistinct` | freertos/navigation.py:1425-1429 | With a span of exactly length items no two dumped items share a position, aligned or not. |
| `QueueRing.DumpIsKernelOrder` | freertos/navigation.py:1425-1429 | With the read pointer on a slot, position k is the kernel's position after k + 1 steps. |
| `QueueRing.KernelOrderIffAligned` | freertos/navigation.py:1425-1429 | Corollary for a full ring: all its positions follow the kernel exactly when the read pointer is aligned. |
| `QueueRing.FollowsKernelIff` | freertos/navigation.py:1425-1429 | The first n positions follow the kernel's steps if and only if the read pointer is aligned or n items end before the storage does. |
| `QueueRing.DumpFollowsKernelIff` | freertos/navigation.py:1387-1434 | The items dumped are the kernel's next ones, in its order, if and only if the read pointer is aligned or the last of them ends before the storage does. |
| `QueueRing.MisalignedDumpExample` | freertos/navigation.py:1425-1429 | A failing input: two filled slots and a read pointer two bytes off; all checks pass and the second item dumped is not the kernel's. |
| `QueueRing.CheckedRingDumps` | freertos/diagnostics.py:126-155 | A data queue that passes the count, storage and read-pointer checks is dumped whole, at distinct positions in its storage. |
| `QueueRing.ChecksMean` | freertos/diagnostics.py:86-155 | Each ring check by the fields alone: passed, failed or skipped exactly when. |
| `QueueRing.KeptPasses` | freertos/diagnostics.py:126-155 | A data queue as the kernel leaves it passes all four checks and is dumped in the kernel's order. |
| `BuildAttributes.Uleb128` | freertos/stackpc.py:69-84 | The decoding loop, never indexing past the data and giving up after the sixth byte. |
| `BuildAttributes.UlebInverse` | freertos/stackpc.py:69-84 | At any offset ULEB128 decoding inverts encoding exactly for values below two to the 42nd. |
| `BuildAttributes.CpuNameFromAttributes` | freertos/stackpc.py:87-130 | The nested cursor loops end on every byte string and compute the parse. |
| `BuildAttributes.NameSurvives` | freertos/stackpc.py:87-130 | The parser returns exactly the name written after any number of foreign sub-sections and file headers, whatever follows. |
| `BuildAttributes.AsciiMeans` | freertos/stackpc.py:120 | Seven-bit bytes read as themselves, all others as the replacement character. |
| `BuildAttributes.AsciiInjective` | freertos/stackpc.py:120 | For ASCII names nothing is lost in decoding. |

## Left out

- PNG, zlib and inline terminal images, and everything that talks to GDB: foreign calls.
- Palettes, owner rankings and message wording: colours and ranking texts are parameters.
- Glyph shapes: the font is a parameter, a map from characters to 5 by 7 patterns.
- `printable`: texts are taken as already drawable, because its escapes are not injective and carry no law.
- Floating point: shares, fold bytes and `math.ceil(a / b)` are exact rationals and integers, so the final rounding of fold bytes and extents is not modelled.
- Raster.PaintGrid: the exact picture is claimed for cells of two pixels or more; at one pixel an outline leaves its cell and only the buffer's fill is claimed.
- FoldBands.Rasterize: layouts with runs that tile the grid, as the planner makes them; hand-made layouts with overlapping runs are not painted here.
- Buffers hold one pixel per element where the program holds three bytes.
- HeapWalks.WalkFreeList: the allocation mask is the top bit of the size word, so masking is a comparison and a subtraction; other masks are not modelled.
- HealthyHeap.HealthyIsOkIff: heap_5 with one region under the protector; with several regions the linear walk is partial and the program always answers "unavailable".
- Heap kinds 1 and 3, geometry probing and counters other than the free-byte count: inputs or plain copies.
- ListWalks.IterList: whether an item can be dereferenced and converted is a parameter; exceptions inside GDB values end an iteration in the program and are not modelled.
- Discovery: the channels' contents are inputs; the waiter heuristic that fills one of them is documented as a heuristic.
- Discovery.CombineMeans: channels report with no extra sources of their own, as all five do.
- ChunkFrames: the meta frame is a record instead of JSON text, and SHA-256 a parameter that `ChunkFrames.ReassembleNeverMixes` takes as collision-free.
- Utf8: texts are sequences of Unicode scalar values, so lone surrogates, which Python can hold and refuses to encode, do not occur.
- Transport: the answer computed at each request is part of the request; dispatch and envelopes are not modelled.
- RtThreadHeap: header fields and owner names are read through parameters; memory-pool and object-container walks are not modelled.
- CallDecode: the version table of slot offsets, and the FreeRTOS decoder with its xPSR test, which adds no new kind of proof.
- Completion, command parsing, probing for an RTOS, system checks, stack watermarks and the VS Code client.
