# Wave Function Collapse solver, modelled in Dafny

This project models the solver core of a tile-based Wave Function Collapse
generator written in C (`src/wfc.c`). The model follows the source's own
form. Global arrays that the C code changes in place become Dafny classes
over arrays: the tile grid (`Grid.Grid`), the indexed min-heap of open cells
(`Heap.EntropyHeap`) and the solver state with its decision stack and
conflict flag (`Solver.Wfc`). The loops that change them become methods with
loop invariants. Each method is proved against a specification function,
and the properties the program relies on are proved about those functions.

The modules follow the structure of `wfc.c`:

- `tiles.dfy` (module `Tiles`): images and edge matching (`tile_matches`);
  the adjacency double loop of `wfc_init`, which turns match masks into
  per-direction option lists; the creation counter that makes a tile's id its
  table position; and the variant count of one schema line.
- `entropy.dfy` (module `Entropy`): entropies, with `INFINITY` as a
  constructor of its own, their strict total order, and `cell_calc_entropy`.
- `grid.dfy` (module `Grid`): cells, `cell_reset`, `grid_create`,
  `grid_reset`, and `cell_collapse` with its cumulative weights and binary
  search, plus the backtrack's reopening of a cell.
- `heap.dfy` (module `Heap`): the heap of (row, column, entropy) entries
  with each cell's cached slot (`heap_idx`). It covers `sift_up`,
  `sift_down`, `find`, `heap_insert`, `heap_extract`, `heap_remove` and
  `heap_reset`.
- `levels.dfy` (module `Levels`): the reference model of
  `propogate_options`. It is a sweep taken one depth level at a time, where
  level L + 1 is the in-grid neighbours of every level-L cell in queue order,
  duplicates included. `Tracks` is the invariant it keeps.
- `propagation.dfy` (module `Propagation`): `propogate_options` as the
  source runs it, without the ring buffer's overflow. A FIFO queue of depth-tagged cells and an array of visited
  marks drive the per-cell option loops and the heap re-keying. Each step is
  proved equal to the level-by-level model. What the sweep leaves unchanged,
  when it reports a conflict and which heap entries it re-keys are proved
  once, about the level model.
- `solver.dfy` (module `Solver`): the tail of `wfc_init` and the three
  branches of `wfc_step` (advance, backtrack, restart). `Wfc.Valid` is the
  solver's invariant:
  - the heap is ordered;
  - the heap holds exactly the open cells, each keyed by its cached entropy;
  - every record on the decision stack names a distinct collapsed cell whose
    first `options` slots still hold the candidates it had before it was
    collapsed.

Random draws are parameters. The step's `rand() / RAND_MAX` is a real
`0 <= u <= 1`, and the restart's `rand() % (rows * cols)` is an index into
the grid.

## Model

| member | source | states |
|---|---|---|
| Tiles.Opposite | src/wfc.c:472-475 | `(d + 2) % 4` is again a direction, differs from d, and its own opposite is d |
| Tiles.EdgeMatchSymmetric | src/wfc.c:146-166 | b fits a's side d exactly when a fits b's opposite side, for images of one size |
| Tiles.Mask | src/wfc.c:134-166 | in `~0` with failing flags cleared, each flag bit is set exactly when its edge test passed and every other bit stays set |
| Tiles.MatchMask | src/wfc.c:133-174 | flag d of the mask is set exactly when b's edge fits a's side d |
| Tiles.TileMatches | src/wfc.c:133-174 | the row loop, early `break` included, returns exactly `MatchMask(a, b)`: the break never changes the result, because flags are only cleared |
| Tiles.MatchMaskSymmetric | src/wfc.c:133-174 | UP of (a, b) is DOWN of (b, a), DOWN is UP, RIGHT of (a, b) is LEFT of (b, a), LEFT is RIGHT |
| Tiles.IncomingSorted | src/wfc.c:614-648 | the ids a tile x receives from pairs (i, x), i < k, are strictly ascending and below k |
| Tiles.IncomingHas | src/wfc.c:614-648 | t is received from those pairs exactly when t < k and t's opposite side fits x |
| Tiles.IncomingMembers | src/wfc.c:614-648 | both of the above for every t |
| Tiles.OutgoingMembers | src/wfc.c:614-648 | the ids x records from pairs (x, j), lo <= j < hi, are ascending and are exactly the j whose image fits x's side d |
| Tiles.AdjListMembers | src/wfc.c:614-648 | after the loop, tile x's list for d is ascending (so holds no duplicate), holds every other tile t exactly when t fits x's side d, holds x exactly when x fits itself and is not the last tile, and holds only table ids |
| Tiles.AdjListSymmetric | src/wfc.c:614-648 | for distinct tiles x and y, y is in x's list for d exactly when x is in y's list for the opposite direction |
| Tiles.Record | src/wfc.c:621 | appending an id to one tile's list for one direction changes that list only |
| Tiles.RecordFlag | src/wfc.c:620-625 | one set flag d of pair (i, j) appends j to i's list for d and, when i != j, i to j's list for the opposite direction; a clear flag changes nothing |
| Tiles.PairFlags | src/wfc.c:620-646 | the four flag steps of a pair append to each list exactly what the pair contributes to it |
| Tiles.PartialStep | src/wfc.c:615-646 | handling pair (i, j) extends each list by that pair's entry |
| Tiles.PartialRowDone | src/wfc.c:614-615 | finishing row i of the pair loop is the same state as starting row i + 1 |
| Tiles.PairAddsEntry | src/wfc.c:618-646 | with the pair's match mask, the ids a pair appends are those its edge matches call for |
| Tiles.PairRecorded | src/wfc.c:618-646 | recording the four flags of pair (i, j) takes every list from the state before the pair to the state after it |
| Tiles.MatchPair | src/wfc.c:616-646 | matching the pair (i, j) and recording its four flags takes every list from the state before the pair to the state after it |
| Tiles.MatchRow | src/wfc.c:615-647 | the inner loop for tile i takes every list from the state before row i to the state before row i + 1 |
| Tiles.BuildAdjacency | src/wfc.c:613-648 | after the double loop each tile keeps its image, weight and id, and its four lists are the ones `AdjListMembers` and `AdjListSymmetric` characterise |
| Tiles.BuiltLibrary | src/wfc.c:613-648 | the built lists hold only ids of the table, so the table is one the solver can use |
| Tiles.Flips | src/wfc.c:558-572 | a line makes 1 + mh + mv unrotated tiles |
| Tiles.Turns | src/wfc.c:574-608 | a line uses 1 + r90 + r180 + r270 rotations |
| Tiles.CombineMembers | src/wfc.c:574-608 | rotating every unrotated tile by every rotation gives the number of mirrors times the number of rotations variants, exactly the pairs of one mirror and one rotation |
| Tiles.VariantCount | src/wfc.c:558-608 | a schema line adds (1 + mh + mv) * (1 + r90 + r180 + r270) tiles |
| Tiles.CorrectedVariantsDistinct | src/wfc.c:569-571 | with the mv tile made by vertical mirroring, no two tiles of a line are made by the same operations |
| Tiles.AsWrittenVariantsDuplicate | src/wfc.c:569-571 | as written, a line with mh and mv set makes its second and third tiles by the same operation, so the line's variants are not distinct |
| Tiles.LineTiles | src/wfc.c:558-608 | a line appends (1 + mh + mv) * (1 + r90 + r180 + r270) tiles, each with the line's weight and the next id of the creation counter; the mv flip is a parameter, `FlipHorizontal` as written at line 570 |
| Tiles.Catalog | src/wfc.c:544-609 | the table the schema loop builds, line after line, has at least one tile per line |
| Tiles.CatalogIds | src/wfc.c:58-67 | every tile's id is its table position (creation counter and `num_tiles` advance together), it carries its line's weight and empty lists, so a table of one image size, positive weights and at most MAX_TILES tiles is ready for the adjacency loop |
| Entropy.LessIsStrictTotalOrder | src/wfc.c:209 | the float `<` on entropies, INFINITY above every finite value, is irreflexive, transitive and total, as the heap's comparisons need |
| Entropy.WeightsOf | src/wfc.c:346-349 | one weight per option id, that id's tile's `frequency`, in option order |
| Entropy.SumBounds | src/wfc.c:346-351 | for positive weights the running total is at least the running maximum, at most count times it, the maximum is positive for a non-empty list and bounds every weight |
| Entropy.EntropyOf | src/wfc.c:341-355 | the entropy is a finite value, and it is 0 exactly for an empty option list |
| Entropy.EntropyBounds | src/wfc.c:341-355 | with positive weights and at least one option the entropy lies between 1 and the option count |
| Entropy.SumEqual | src/wfc.c:346-351 | n equal weights w sum to n * w and, for w > 0, have maximum w |
| Entropy.EntropyOfEqualWeights | src/wfc.c:341-355 | with equal positive weights the entropy is the option count |
| Entropy.CalcEntropy | src/wfc.c:341-355 | the early return and the summing loop compute `EntropyOf` of the first `num_options` options' weights |
| Grid.AllTiles | src/wfc.c:358 | the copied tile table is the ids 0 .. num_tiles - 1 in order |
| Grid.Reset | src/wfc.c:357-363 | a reset cell holds every tile as candidates, is uncollapsed, marked new, has entropy INFINITY and keeps its position |
| Grid.Refreshed | src/wfc.c:400-407 | `grid_reset` keeps the number of cells |
| Grid.Created | src/wfc.c:374-393 | `grid_create` makes rows * cols cells |
| Grid.Swap | src/wfc.c:332-335 | swapping slots i and j exchanges those two entries and leaves every other slot alone |
| Grid.SwapPermutes | src/wfc.c:332-335 | a swap inside the first n slots permutes them and keeps the rest of the buffer |
| Grid.Prefix | src/wfc.c:308-312 | `cumulative_weight[k]`: 0 at k = 0 (the buffer is zeroed), the total weight at k = `num_options`, and never negative for positive weights |
| Grid.PrefixMonotone | src/wfc.c:310-312 | with positive weights the cumulative weights strictly increase |
| Grid.PickFrom | src/wfc.c:316-326 | scanning from r, the pick is the first option whose cumulative interval (cw[p], cw[p+1]] holds v |
| Grid.Pick | src/wfc.c:316-328 | for 0 < v <= total the pick is an option index whose cumulative interval holds v |
| Grid.PickUnique | src/wfc.c:316-328 | only one option's interval holds v, so the pick is determined by v |
| Grid.PickOption | src/wfc.c:307-328 | the cumulative-weight loop and the binary search return the one r with cw[r] < v <= cw[r+1], which passes the assert at line 328 |
| Grid.CellIndex | src/wfc.c:378-381 | row-major index r * cols + c lies in the grid and dividing by cols gives r and c back |
| Grid.Collapsed | src/wfc.c:330-336 | a collapsed cell is collapsed with one option, keeps its position and entropy, and its buffer stays valid |
| Grid.Reopened | src/wfc.c:686-698 | the reopened cell is uncollapsed, marked new and valid |
| Grid.ReopenedOptions | src/wfc.c:690-695 | a reopened cell's candidates plus the tried tile are exactly its recorded candidates |
| Grid.Grid.constructor | src/wfc.c:374-393 | every cell k sits at row k / cols, column k % cols, uncollapsed, not new, holding every tile, entropy INFINITY |
| Grid.Grid.ResetCell | src/wfc.c:357-363 | cell i becomes `Reset` of itself and no other cell changes |
| Grid.Grid.Reopen | src/wfc.c:684-698 | the popped cell gets its recorded count back and loses the tried tile, or is reset when the count is 0; no other cell changes |
| Grid.Grid.ResetUnsettled | src/wfc.c:400-407 | exactly the uncollapsed cells whose count is not num_tiles are reset; all others are left as they were |
| Grid.Grid.ResetAll | src/wfc.c:707-709 | every cell is reset |
| Grid.Grid.Collapse | src/wfc.c:307-339 | for 0 < v <= total, the picked index r has cw[r] < v <= cw[r+1]; its tile moves to slot 0; the cell is collapsed with one option; the first old `num_options` slots are a permutation of the old candidates; no other cell changes |
| Heap.Parent | src/wfc.c:207 | `(c - 1) / 2` truncating: for c > 0 the parent is a lower slot that has c as its left or right child; slot 0 is its own parent |
| Heap.Detached | src/wfc.c:275 | refilling slot idx from the last slot leaves one entry fewer, the last one now at idx |
| Heap.DetachedPermutes | src/wfc.c:275 | the remaining entries plus the removed one are the entries before |
| Heap.SwapKeepsEntries | src/wfc.c:210-215 | a swap of two live slots, with both cells' `heap_idx` re-pointed, keeps every live slot's cell pointing back at it and keeps every cell's entry |
| Heap.PushAddsEntry | src/wfc.c:266-267 | putting an entry for a cell not in the heap into slot heap_size appends it, gives that cell its entry and changes no other cell's |
| Heap.RemoveDropsEntry | src/wfc.c:272-276 | removing slot idx keeps the heap consistent, drops exactly that cell's entry, and leaves its `heap_idx` at -1, or at idx when idx was the last slot |
| Heap.RemovedEntry | src/wfc.c:284-288 | after removing slot idx, every other cell keeps its entry, and a cell out of the heap keeps its `heap_idx` |
| Heap.AboveRoot | src/wfc.c:209 | in an ordered heap no entry is keyed below the root |
| Heap.RootIsMin | src/wfc.c:272 | the root of an ordered heap holds a minimum key |
| Heap.SwapUp | src/wfc.c:209-218 | one `sift_up` swap of c with a parent keyed above it moves the hole to the parent |
| Heap.SwapDown | src/wfc.c:225-247 | one `sift_down` swap of p with its smallest child, keyed below p, moves the hole to the child |
| Heap.SmallerChild | src/wfc.c:224-225 | the child `sift_down` picks, the right one on a tie, is keyed lowest of p's children |
| Heap.DownHoleSettled | src/wfc.c:235-250 | when p's smallest child is not keyed below p the loop's `break` leaves the heap ordered |
| Heap.RootHole | src/wfc.c:275-277 | moving the last entry to the root of an ordered heap leaves only a hole at the root |
| Heap.AppendHole | src/wfc.c:266-268 | appending to an ordered heap leaves only a hole at the new slot |
| Heap.DownHoleClosed | src/wfc.c:223 | a hole with no child keyed below it is no hole |
| Heap.DetachHole | src/wfc.c:287-289 | refilling slot idx of an ordered heap leaves a hole that one sift up or one sift down repairs |
| Heap.SinkStep | src/wfc.c:226-247 | one swap of `sift_down` keeps every cell's entry and moves the hole down |
| Heap.TruncHalf | src/wfc.c:223 | C's truncating `/ 2`, which makes (1 - 2) / 2 equal to 0 |
| Heap.EntropyHeap.constructor | src/wfc.c:658 | an empty heap with one slot per cell |
| Heap.EntropyHeap.Exchange | src/wfc.c:210-215 | the heap after one swap, consistent again |
| Heap.EntropyHeap.SiftUp | src/wfc.c:206-220 | every cell keeps its entry and a hole at c is repaired, so an ordered heap plus one appended entry ends ordered |
| Heap.EntropyHeap.SmallerChildOf | src/wfc.c:224-225 | the chosen child is a live child of p and no child of p is keyed below it |
| Heap.EntropyHeap.SiftDown | src/wfc.c:222-253 | every cell keeps its entry and a hole at p is repaired; a p with no live child changes nothing |
| Heap.EntropyHeap.Find | src/wfc.c:255-263 | the first live slot naming (r, c), or -1 exactly when none does; on the grid it equals the cached `heap_idx` of a cell in the heap and -1 for one out of it |
| Heap.EntropyHeap.Push | src/wfc.c:266-267 | the entry is in slot heap_size, its cell points there, heap_size grew by one |
| Heap.EntropyHeap.Insert | src/wfc.c:265-269 | the heap gains exactly the new cell's entry, heap_size grows by one, the multiset of entries gains the node, and an ordered heap stays ordered |
| Heap.EntropyHeap.Detach | src/wfc.c:272-276 | the removed entry is the one in slot idx and the state is the refilled one |
| Heap.EntropyHeap.Extract | src/wfc.c:271-280 | returns the root; the heap loses exactly that entry and one slot; on an ordered heap the root is a minimum and the heap stays ordered; the taken cell's `heap_idx` is -1, or 0 when it was the only entry |
| Heap.EntropyHeap.Remove | src/wfc.c:282-292 | returns slot idx's entry; the heap loses exactly that entry; the taken cell's `heap_idx` is -1, or idx when idx was the last slot; when the refilled slot has no live child nothing is sifted |
| Heap.EntropyHeap.RemoveOrdered | src/wfc.c:282-292 | the same removal with the moved entry sifted up or down as needed, which keeps an ordered heap ordered |
| Heap.EntropyHeap.Repair | src/wfc.c:289 | the sift that closes a removal's hole keeps every entry and leaves the heap ordered |
| Heap.EntropyHeap.ExpectedAt | src/wfc.c:298-300 | cell (i, j)'s expected entry is none when it is collapsed, else (i, j) keyed by its cached entropy |
| Heap.EntropyHeap.Admit | src/wfc.c:298-301 | one step of the reset loops admits cell (i, j) when uncollapsed, keeps the heap ordered and keeps earlier cells' entries |
| Heap.EntropyHeap.Reset | src/wfc.c:294-304 | afterwards every uncollapsed cell has exactly one entry, keyed by its cached entropy, no collapsed cell has one, and the heap is ordered |
| Heap.SiftDownAsWritten | src/wfc.c:222-253 | the as-written sift keeps heap_size and the array sizes |
| Heap.ExtractAsWritten | src/wfc.c:271-280 | the as-written extract shrinks heap_size by one and keeps the array sizes |
| Heap.StaleProneExample | src/wfc.c:222-253 | the ordered heap keyed 0, 5, 1 on a one-row grid is a heap where the stale read bites |
| Heap.FirstExtract | src/wfc.c:271-280 | the first as-written extract from such a heap leaves entries [last, middle] and a stale copy of the last entry in slot 2 |
| Heap.SecondExtract | src/wfc.c:223-247 | the second as-written extract compares the new root with stale slot 2, swaps, and the middle cell's entry is gone |
| Heap.ExtractStaleSlot | src/wfc.c:222-280 | two as-written extracts from such a heap leave the extracted cell as the one live entry and the never-returned middle cell without an entry |
| Heap.RemoveLeafBreaksOrder | src/wfc.c:282-292 | removing slot 3 from the ordered heap keyed 0, 10, 1, 11, 12, 2 leaves it unordered, since the moved entry is never sifted up |
| Levels.Neighbours | src/wfc.c:439-457 | the cells a dequeued cell queues are each one step from it, in the grid when it is, in the order up, down, left, right |
| Levels.NextLevelNear | src/wfc.c:439-457 | every cell of the next depth level is in the grid and at most one step further from the origin than the level before |
| Levels.NeighbourInBounds | src/wfc.c:439-457 | `adj[d]`, when set, is a cell of the grid other than the dequeued one |
| Levels.NextLevel | src/wfc.c:439-457 | the entries one level's cells enqueue number at most four per cell |
| Levels.IdxInjective | src/wfc.c:425 | the row-major index `r * cols + c` names one cell only |
| Levels.ReachBounded | src/wfc.c:472-477 | every tile a neighbour's options mark in `set_options` is an id of the table |
| Levels.DirUnion | src/wfc.c:469-484 | row d of `set_options` marks only ids of the table: the neighbour's options' lists for the opposite side, or every tile at the grid's edge |
| Levels.Unions | src/wfc.c:469-484 | the four rows of `set_options`, one per direction, each marking only ids of the table |
| Levels.Picked | src/wfc.c:486-496 | at most num_tiles new options, each an id below num_tiles |
| Levels.PickedMembers | src/wfc.c:486-496 | the new options are in strictly increasing id order and are exactly the ids marked from all four directions |
| Levels.OwnOptionsIgnored | src/wfc.c:466-496 | a cell's new options do not depend on its own old options: the neighbours alone decide them |
| Levels.Recounted | src/wfc.c:494-510 | the cell takes the new buffer and keeps its collapsed flag and position |
| Levels.NewCell | src/wfc.c:466-511 | the updated cell still holds num_tiles tile ids with a count within them |
| Levels.Visit | src/wfc.c:459-512 | one dequeued cell keeps the grid well formed, and a re-keyed cell is always a visited one |
| Levels.Level | src/wfc.c:427-514 | visiting one depth level in queue order keeps the grid well formed |
| Levels.Run | src/wfc.c:427-432 | the levels up to `depth` keep the grid well formed |
| Levels.Propagated | src/wfc.c:409-425 | a sweep from the origin, marked visited first, keeps the grid well formed |
| Levels.Frontier | src/wfc.c:424-457 | level L of the queue, duplicates included: every cell in it lies in the grid |
| Levels.RingSlot | src/wfc.c:419-428 | queue index i lives in slot `i % queue_size`, a slot of the ring |
| Levels.QueueSize | src/wfc.c:419 | `queue_size` is 2 * rows * cols, positive for a non-empty grid |
| Levels.SameSlot | src/wfc.c:428-455 | queue indices `queue_size` apart share a ring slot |
| Levels.NextLevelDoubles | src/wfc.c:439-457 | on a grid of at least 2 x 2 cells each cell enqueues two neighbours or more, so the next level is at least twice as long |
| Levels.FrontierGrows | src/wfc.c:427-457 | on a grid of at least 2 x 2 cells level L holds at least 2^L entries |
| Levels.RingOverwrite | src/wfc.c:419-461 | as written: once level D + 1 has `queue_size` entries or more, the last entry the last level-D cell enqueues shares its slot with an index no lower than that cell's own, so it overwrites the cell being processed or an entry not yet read |
| Levels.BacktrackOverflows | src/wfc.c:704 | the backtrack's sweep, depth rows * cols, on a grid of at least 2 x 2 cells queues a level of at least `queue_size` entries, so `RingOverwrite` applies to it |
| Levels.MarkNear | src/wfc.c:463 | marking a cell within the bound keeps every visited cell within it |
| Levels.UpdateFramed | src/wfc.c:463-511 | updating an unvisited uncollapsed cell changes only that cell, and not its position or collapsed flag |
| Levels.UpdateCounted | src/wfc.c:498-511 | updating an unvisited uncollapsed cell keeps the conflict flag, the re-keyed set, the entropies and the `new` marks as `Tracks` states them |
| Levels.UpdateTracks | src/wfc.c:463-511 | updating an unvisited uncollapsed cell keeps `Tracks` |
| Levels.VisitTracks | src/wfc.c:459-512 | every visit within the bound keeps `Tracks`: skipped, marked only, or updated |
| Propagation.VisitStep | src/wfc.c:459-512 | one visit moves a level along without changing where it ends, and keeps the invariant |
| Propagation.LevelTracks | src/wfc.c:427-514 | a whole level of cells within the bound keeps the invariant |
| Propagation.RunTracks | src/wfc.c:427-514 | the levels from L on, level L lying within L steps of the origin, keep the invariant with bound `depth` |
| Propagation.PropagatedTracks | src/wfc.c:409-520 | the whole sweep from the origin keeps the invariant with bound `depth` |
| Propagation.PropagationFrozen | src/wfc.c:425-466 | the origin, collapsed cells and cells more than `depth` steps away are left unchanged; no cell changes its position or collapsed flag |
| Propagation.PropagationConflict | src/wfc.c:498-506 | the result is true exactly when no cell newly lost its last option |
| Propagation.PropagationRekeyed | src/wfc.c:498-511 | a cell is re-keyed exactly when it is in the heap and its count changed to another non-zero count; then its entropy is that of its new options, otherwise its entropy is kept; a cell whose count changed is marked new |
| Propagation.PropagationKeeps | src/wfc.c:425-466 | the origin and collapsed cells, by index, keep their contents, and every cell keeps its collapsed flag |
| Propagation.MarkDirection | src/wfc.c:469-484 | row d of `set_options` marks exactly the tiles the neighbour in direction d allows on its opposite side, every tile at the grid's edge; the other rows are untouched |
| Propagation.NewOptions | src/wfc.c:466-496 | the count is that of the tiles marked in all four rows and the buffer is those tiles, ascending, over the front of the old buffer |
| Propagation.Collect | src/wfc.c:486-496 | the final loop writes exactly the tiles marked in all four rows, in id order, over the front of the buffer and counts them |
| Propagation.RekeyOne | src/wfc.c:507-511 | re-keying one more cell keeps the heap equal to the original with exactly the re-keyed cells' entries re-keyed |
| Propagation.RekeyNone | src/wfc.c:498-506 | a cell changed without re-keying keeps that relation |
| Propagation.Rekey | src/wfc.c:507-511 | removing slot idx and re-inserting its node keyed by the new entropy changes that cell's key only, and keeps an ordered heap ordered |
| Propagation.Recount | src/wfc.c:498-511 | the cell becomes `Recounted`; false exactly on a change of count to 0; on a change to another count a cell in the heap has its entry re-keyed by its new entropy and no other entry changes |
| Propagation.UpdateCell | src/wfc.c:466-511 | only cell p changes, and it becomes its `NewCell`; the result and the heap are as in `Recount` |
| Propagation.VisitCell | src/wfc.c:459-512 | the grid, the visited marks, the result and the heap take exactly the step `Visit` takes |
| Propagation.TaggedAppend | src/wfc.c:439-457 | tagging two runs of cells with one depth is tagging their concatenation |
| Propagation.Enqueue | src/wfc.c:439-457 | the queue gains the in-grid neighbours of the dequeued cell, one deeper, in the order up, down, left, right |
| Propagation.RunEmpty | src/wfc.c:427 | once no cells remain the sweep is over |
| Propagation.NextLevelSnoc | src/wfc.c:439-457 | the cells queued after one more dequeue are those queued before plus its neighbours |
| Propagation.PendingStep | src/wfc.c:459-512 | visiting the next cell of the level does not change where the sweep ends, and a conflict ends it there |
| Propagation.PendingNext | src/wfc.c:427-432 | the end of one level is the start of the next, one deeper |
| Propagation.QueueStep | src/wfc.c:428-457 | taking the queue's head yields the frontier's next cell, and queueing its neighbours moves the queue one place along the frontier |
| Propagation.QueueNext | src/wfc.c:427-430 | when a level is used up the queue holds exactly the next level |
| Propagation.VisitNext | src/wfc.c:435-512 | dequeuing one cell within the depth queues its neighbours and takes the sweep's next step on the grid, the visited marks and the heap |
| Propagation.Settle | src/wfc.c:427-430 | the queue's head is the next cell of the current level, or of the next level when this one is used up, without changing where the sweep ends |
| Propagation.Step | src/wfc.c:427-512 | one pass of the loop: a cell past the depth ends the sweep where it ends; otherwise the pass visits it and a conflict ends the sweep |
| Propagation.Drain | src/wfc.c:427-514 | the loop ends with the grid, the result and the heap keys that the level-by-level sweep gives |
| Propagation.Propagate | src/wfc.c:409-520 | the grid ends as `Propagated` says, the result is its conflict flag, the heap is re-keyed exactly at the re-keyed cells, and an ordered heap stays ordered |
| Solver.OriginRoundTrip | src/wfc.c:665 | `idx / cols, idx % cols` is a cell of the grid whose row-major index is idx again |
| Solver.RestartOriginAsWritten | src/wfc.c:718 | the restart's origin as written, row `idx / rows`; on a square grid it is cell idx's own row and column |
| Solver.RestartOriginMisplaced | src/wfc.c:712-718 | on a 3 x 1 grid the restart collapses cell (2, 0) but propagates from (0, 0); on 1 x 3 it propagates from a row outside the grid |
| Solver.TotalPositive | src/wfc.c:310-312 | the total weight of positive frequencies is non-negative, and positive exactly when there is an option |
| Solver.Fraction | src/wfc.c:314 | `rand() / RAND_MAX` times the total lies between 0 and the total, and is positive exactly when both factors are |
| Solver.DrawBounds | src/wfc.c:314-328 | the draw is at most the cell's total weight, and positive, as the assertion needs, exactly when u > 0 and the cell has an option |
| Solver.Taken | src/wfc.c:655 | collapsing cell k keeps the grid well formed |
| Solver.Decided | src/wfc.c:653-665 | collapsing cell k and propagating from it keeps the grid well formed |
| Solver.DecidedCells | src/wfc.c:672-680 | a decision collapses cell k, which keeps its picked option; no other cell changes its collapsed flag and other collapsed cells are left alone |
| Solver.DecidedOpen | src/wfc.c:672-680 | after a decision the open cells are those open before, less k |
| Solver.RestartOpen | src/wfc.c:707-718 | after a restart exactly one cell is collapsed: the one drawn |
| Solver.RefreshedOk | src/wfc.c:400-407 | `grid_reset` keeps the grid well formed, keeps every collapsed flag and leaves collapsed cells alone |
| Solver.Unwound | src/wfc.c:682-697 | the grid after `grid_reset` and the reopening is well formed |
| Solver.Undone | src/wfc.c:682-704 | the grid after a backtrack is well formed |
| Solver.UndoneCells | src/wfc.c:682-704 | a backtrack reopens the popped cell as `Reopened` says; no other cell changes its collapsed flag and other collapsed cells are left alone |
| Solver.UndoneOpen | src/wfc.c:682-704 | after a backtrack the open cells are those open before plus the popped cell |
| Solver.KeyedHeld | src/wfc.c:294-304 | a heap keyed as `heap_reset` builds it holds exactly the open cells |
| Solver.RootOpen | src/wfc.c:672-673 | the heap's root names an open cell, with its position and its cached entropy |
| Solver.RootMinimal | src/wfc.c:672 | on an ordered heap no open cell has lower cached entropy than the root |
| Solver.EmptyHeapAllCollapsed | src/wfc.c:671-705 | `heap_size > 0` exactly when some cell is open, so the restart branch is taken exactly when every cell is collapsed |
| Solver.KeyedTaken | src/wfc.c:672-675 | extracting the root and collapsing its cell keeps the heap keyed to the open cells |
| Solver.KeyedSwept | src/wfc.c:498-511 | a propagation over the open cells keeps the heap keyed by the cells' cached entropies |
| Solver.DistinctBound | src/wfc.c:663 | distinct cell indices below n number at most n |
| Solver.StackRoom | src/wfc.c:663-674 | with an open cell the stack, of `rows * cols` entries, has room for one more record, and no record names that cell |
| Solver.StackedCollapsedKept | src/wfc.c:674-680 | a change that leaves the collapsed cells alone keeps each record's options in its cell |
| Solver.StackedPush | src/wfc.c:674 | pushing a kept record for a cell no record names keeps the stack |
| Solver.PushStacked | src/wfc.c:672-675 | an advance's record keeps the stack, the collapse keeping the cell's former candidates in its first `options` slots, and fits in it |
| Solver.StackedPop | src/wfc.c:684 | popping keeps the rest of the stack, none of which names the popped cell |
| Solver.StackedKeptBut | src/wfc.c:682-697 | a change to collapsed cells only at a cell no record names keeps the stack |
| Solver.PopStacked | src/wfc.c:682-697 | the popped record names a collapsed cell with at most num_tiles options, and after the reset and reopening the rest of the stack is kept |
| Solver.Wfc.Spread | src/wfc.c:665 | the grid ends as the propagation over the open cells says and the solver's invariant is kept |
| Solver.Wfc.constructor | src/wfc.c:650-665 | a new grid with cell idx collapsed by the draw and propagated from, an empty stack, no conflict, and the solver's invariant established |
| Solver.Wfc.Take | src/wfc.c:672-675 | the root's cell is collapsed by the draw and a record with its former count is pushed, within the stack's room |
| Solver.Wfc.Advance | src/wfc.c:671-680 | the advance takes an open cell of lowest cached entropy, pushes its record, collapses it and propagates; a failed propagation sets the conflict flag; a draw of 0 aborts the step before any change |
| Solver.Wfc.Unwind | src/wfc.c:682-702 | pops the last record; the grid is reset and the popped cell reopened; the conflict flag stays set only when the reopened cell has no option left |
| Solver.Wfc.Backtrack | src/wfc.c:681-704 | the grid ends as `Undone` says; the popped cell is open again with its recorded candidates less the option tried, or every tile when the recorded count was 0 |
| Solver.Wfc.Restart | src/wfc.c:705-721 | every cell is reset, cell idx is collapsed and propagated from at its own row and column, the stack is emptied; a draw of 0 aborts the step |
| Solver.Wfc.StrandedBacktrack | src/wfc.c:681-702 | as written: backtracking a lone record whose cell had one option leaves the conflict flag set and the stack empty |
| Solver.Wfc.Step | src/wfc.c:669-722 | per outcome: an advance takes the heap's root k (no conflict, heap not empty), pushes `Record(k / cols, k % cols, old count)` and leaves the grid as `Decided` with the conflict flag set exactly on a failed sweep; a backtrack (conflict, stack not empty) pops the last record, leaves the grid as `Undone` and keeps the conflict exactly for a recorded count of 1; a restart empties the stack, clears the conflict and leaves the grid as `Decided` from all-reset cells; an abort (u = 0, or a root with no option) changes nothing; after a conflict with no record left it restarts |

## Left out

- `src/main.c` is not part of this model. It holds argument parsing and the raylib window loop.
- `src/wfc.h` holds declarations only.
- `wfc_draw` (`src/wfc.c:724-792`) is not modelled. It updates raylib textures and blends float colours.
- `wfc_tile_width` and `wfc_tile_height` (`src/wfc.c:794-800`) are not modelled. They are trivial accessors.
- Reading the schema file in `wfc_init` (`src/wfc.c:535-611`) is file I/O and is not modelled. The model takes the parsed lines (weight and flags) as input.
- The raylib image calls (loading, formatting, copying, rotating and flipping) are foreign code. The variant images are opaque inputs, and only which operations make each variant is modelled.
- `srand`, `rand` and `time` are not modelled. Each draw is a parameter of the method that uses it.
- `tile_hash` (`src/wfc.c:45-56`) is not modelled: its result is stored but never read.
- Memory management is not modelled: `malloc`, `calloc` and `free`, and the grid that `wfc_init` creates twice and leaks (`src/wfc.c:533`, `650`).
- The `CONFLICT` message printed at `src/wfc.c:679` is not modelled.
- Float arithmetic is modelled with exact reals. Weights are `real`, and `INFINITY` is the `Infinite` entropy, above every finite value. Rounding is not modelled.
- Integers are unbounded. The sizes involved (cells, tiles, stack entries) stay far below 32-bit limits.
- The queue of `propogate_options` is modelled as a sequence that grows at the end. The source's ring buffer holds `2 * rows * cols` entries (`src/wfc.c:419-428`), and every dequeued cell enqueues its neighbours before the visited test, so each level can be up to four times as long as the one before. When `queue_size - 1` entries are pending, the next enqueue writes over the slot `node` points to, so the rest of that pass (the visited test, the option loops, `find`) works on another cell's coordinates while `adj` still holds the first cell's neighbours; each further enqueue before a dequeue destroys an entry not yet read. On a grid of at least 2 x 2 cells this happens in every backtrack sweep that runs to its depth (`Levels.BacktrackOverflows`). Larger grids reach it at small depths too, since interior cells enqueue four entries each; the model proves only the doubling bound. The overflow is the fifth finding below and is not part of `Propagation.Propagate`.
- Tile weights are required to be positive (`Tiles.Library`, `Entropy.Positive`, needed by `EntropyOf`, `Pick` and `Collapsed`). The source reads any float from the schema (`src/wfc.c:550`) and never checks it. A tile of weight 0 is then never picked, and a cell whose options all weigh 0 divides 0 by 0 at `src/wfc.c:354` and fails the assertion in `cell_collapse`. The model does not cover such schemas.
- `set_options` rows are `MAX_TILES` wide, and the model requires `num_tiles <= MAX_TILES`. A larger table would overflow the C arrays.
- Heap.EntropyHeap.SiftDown: reads children only in live slots. The C loop bound and its read of `min_heap[c + 1]` can reach slots at or past `heap_size`, stale copies of removed entries. The as-written behaviour is modelled separately (`Heap.SiftDownAsWritten`) and is the second finding below. `Heap.SiftDownAsWritten` also stops where C would read past the `rows * cols` slots of `min_heap`: on a 2-cell grid with `heap_size` 1, C enters the loop and reads `min_heap[2]`, outside the allocation, which the model does not give a value.
- Heap.EntropyHeap.Find: modelled as the scan of live slots that `find` performs. It is proved equal to the cached `heap_idx`, which the code consults in a comment only.
- Each cell's `heap_idx` is kept in the heap's `heapIdx` array instead of in the cell record. The grid and the heap are then separate objects, and the model proves the two agree.
- Solver.Wfc.Advance: a draw of 0, where `cell_collapse`'s assertion (`src/wfc.c:328`) stops the program, is modelled as an `Aborted` step that changes nothing.
- Solver.Wfc.Backtrack: the reopened cell is reset to every tile only when its recorded count was 0. That is what the code does at `src/wfc.c:689-696`; a count of 1 leaves the cell open with no options, and the conflict flag stays set.
- Solver.Wfc.Advance: takes an open cell of lowest cached entropy only because the heap stays ordered and keyed, which holds for the corrected heap (`Heap.EntropyHeap.Extract`, `Heap.EntropyHeap.RemoveOrdered`). As written, `heap_remove` at `src/wfc.c:508` can break the order, so `heap_extract` at `src/wfc.c:672` can return a cell that is not minimal; and the stale reads of `sift_down` can leave an open cell without an entry, or give a collapsed cell one, so an advance can push a second record for a cell already collapsed.
- Solver.Wfc.Step: the restart "once all are collapsed" holds for the corrected heap only. As written, an open cell left without a heap entry makes `heap_size` 0 while that cell is open, and the restart at `src/wfc.c:705` fires early. A conflict with an empty stack, which `Solver.Wfc.StrandedBacktrack` reaches, is modelled as a restart that clears the conflict; the source instead reads `stack[-1]` (`src/wfc.c:684`). This is the sixth finding below.
- Solver.Wfc.Restart: propagates from cell idx's own row `idx / cols`, the corrected origin of the fourth finding. The as-written origin `idx / rows` is `Solver.RestartOriginAsWritten`.
- Propagation.Rekey: removes the cell's entry with `Heap.EntropyHeap.RemoveOrdered`, which sifts up or down, where `src/wfc.c:508` calls `heap_remove`, which only sifts down. The promise that an ordered heap stays ordered holds for the corrected removal only; as written the re-keyed heap can lose its order (`Heap.RemoveLeafBreaksOrder`).
- Tiles.LineTiles: takes the mv flip as a parameter. `Tiles.Catalog` with `FlipHorizontal` is the table as written; the properties proved of every table (`Tiles.CatalogIds`) hold for either flip.
- Propagation.Propagate: the heap is re-keyed with the removal that also sifts up (`Heap.EntropyHeap.RemoveOrdered`), the corrected removal of the third finding. With the as-written `heap_remove` the heap can lose its order. Its queue never overflows, the corrected behaviour of the fifth finding.

## Findings

| source | as written | input that shows it | evidently intended | confidence | as-written member | corrected member |
|---|---|---|---|---|---|---|
| src/wfc.c:569-571 | the "mirror vertical" variant is built with `tile_mirror_horz`, like the "mirror horizontal" one | a schema line with both mh and mv set: its second and third tiles are the same horizontal mirror | the mv variant uses a vertical flip, so a line's variants are distinct | high, not executed | Tiles.AsWrittenVariantsDuplicate | Tiles.CorrectedVariantsDistinct |
| src/wfc.c:222-280 | `sift_down` compares with slots at and past `heap_size`, which still hold stale entries; with `heap_size == 1` the loop runs because `(1 - 2) / 2` is 0 | an ordered heap keyed 0, 5, 1 on a 1 x 3 grid: two extractions leave the cell already returned as the one live entry, and the cell keyed 5 without an entry | children are read only below `heap_size` | high, not executed | Heap.ExtractStaleSlot | Heap.EntropyHeap.Extract |
| src/wfc.c:282-292 | `heap_remove` refills the slot from the last entry and only sifts down | the ordered heap keyed 0, 10, 1, 11, 12, 2 on a 1 x 6 grid: removing slot 3 puts key 2 under key 10 | the refilled entry is sifted up or down as its key requires | high, not executed | Heap.RemoveLeafBreaksOrder | Heap.EntropyHeap.RemoveOrdered |
| src/wfc.c:718 | the restart propagates from row `idx / grid->rows` | a 3 x 1 grid with idx 2: cell (2, 0) is collapsed but the sweep starts at (0, 0); on 1 x 3 it starts outside the grid | row `idx / grid->cols`, as in `wfc_init` (`src/wfc.c:665`) | high, not executed | Solver.RestartOriginMisplaced | Solver.Wfc.Restart |
| src/wfc.c:419-461 | the queue is a ring of `2 * rows * cols` slots, and every dequeued cell enqueues its neighbours, duplicates included, before the visited test | a backtrack sweep (depth rows * cols) on a 2 x 2 grid that runs to its depth: level 5 holds at least 32 entries, more than the ring's 8 slots, so an enqueue overwrites the node being processed or an entry not yet read | a FIFO that keeps every queued entry until it is read | high, not executed | Levels.RingOverwrite | Propagation.Propagate |
| src/wfc.c:681-702 | backtracking a record whose cell had one option reopens it with none, so the conflict flag stays set; when that was the last record the next step pops `stack[-1]` | a first advance that collapses a cell with one option and whose propagation conflicts: the stack is then that one record, and the backtrack empties it | with no record left, the search has failed and starts over | medium, not executed | Solver.Wfc.StrandedBacktrack | Solver.Wfc.Step |
