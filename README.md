# R-tree insertion engine, modelled in Dafny

This project models the sequential core of a C implementation of Guttman's
R-tree insertion and proves properties of that model. The core is:

- **Rectangle geometry:** area, merged area, area increase with its `DBL_MAX`
  sentinel for a zero-area rectangle, in-place `expand_mbr`, and overlap area.
- **Fixed-capacity nodes:** `initialize_rt`, `add_member`,
  `remove_index_record` with its shift-left compaction, `move_index_record`
  and `is_leaf`.
- **ChooseLeaf:** the first-minimum scan and the descent built on it. In the
  "parallel" variant, the threads become workers that run one after another
  over their ranges, followed by the reduction over the result slots.
- **PickSeeds:** the exhaustive max-waste pair scan, the per-worker row scan
  with its slot arithmetic, and the reduction and reset of the result slots.
- **Linear split:** the partition of a node's members between two new nodes,
  the per-worker decision loop, and the distribution loop driven by the
  `split_nodes` decision array.
- **AdjustTree:** the upward walk that enlarges each ancestor entry's
  rectangle. It is written as a loop over the chain of hosting entries.

Modules follow the source files:

| module | file | models |
|---|---|---|
| `Wrappers` | `wrappers.dfy` | `Option` (a possibly NULL pointer) and `Result` (a step that can fault). |
| `Geometry` | `geometry.dfy` | Rectangles as values; the class `Rect` for the in-place `expand_mbr`. |
| `Nodes` | `nodes.dfy` | The node class: a member array of entry ids plus a count. |
| `Tree` | `tree.dfy` | The tree as an arena of entries and nodes addressed by ids (see below). |
| `Workers` | `workers.dfy` | The `ceil(n / T)` work partition. |
| `ChooseLeaf` | `choose_leaf.dfy` | `choose_leaf.c`. |
| `PickSeeds` | `pick_seeds.dfy` | `pick_seeds.c`. |
| `LinearSplit` | `linear_split.dfy` | `linear_split.c`. |
| `AdjustTree` | `adjust_tree.dfy` | `adjust_tree.c`. |

**Arena and the host relation.** Every entry has a rectangle, an optional
child node and an optional host node, and every node has an optional parent
entry. The C structure `index_record` has a `host` field, which
`adjust_tree` follows, but no code ever assigns it: `initialize_ir` sets only
`mbr` and `child`, and `add_member` leaves it alone. The arena therefore
treats the host relation as part of its state: an entry's host is the node
whose member list holds it (both directions are part of the arena
invariant), and a member's child node has that member as its parent entry.
A ghost height per node gives the descent and the
upward walk their termination measure.

**Points of the code that the model keeps as written:**

- The split compares each member against the two seed rectangles it is
  passed and never enlarges them (linear_split.c:21-31). `add_member` only
  stores the pointer and bumps the count (r_tree.c:180-186), so in the model
  the seed rectangles never change during a split.
- The PickSeeds scan runs over all n×n ordered pairs, self-pairs included
  (pick_seeds.c:17-26). The model proves the pair it returns distinct only
  for well-formed rectangles, where a self-pair's waste (minus its own area)
  never beats a pair scanned before it.
- Under strict `<`, the sequential ChooseLeaf scan keeps the earliest of
  equal increases (choose_leaf.c:12-18), and the descent takes that first
  minimum. Every parallel worker seeds its running minimum with member 0's
  increase and index `start` (choose_leaf.c:34-35), and the reduction over
  the slots also uses strict `<` (choose_leaf.c:118-127). The model proves
  that it still returns the first minimum: the worker whose range holds it
  reports it exactly, and every earlier worker reports a strictly larger
  value. So the parallel descent ends at the sequential descent's leaf, ties
  included.

## Model

| member | source | states |
|---|---|---|
| Geometry.Area | r_tree.c:10-12 | For a well-formed rectangle the area is non-negative, and zero exactly when the rectangle is flat on some axis. |
| Geometry.Expanded | r_tree.c:99-110 | The expanded rectangle contains both the child and the original rectangle. |
| Geometry.ExpandedSmallest | r_tree.c:99-110 | Any box holding both rectangles also holds the expanded one, so each edge moves out only as far as needed. |
| Geometry.ExpandedUnchangedIffContained | r_tree.c:99-110 | Expansion changes nothing exactly when the child is already contained. |
| Geometry.ExpandedIdempotent | r_tree.c:101-110 | A second expansion with the same child changes nothing. |
| Geometry.ExpandedWellFormed | r_tree.c:101-110 | Expansion keeps min ≤ max on both axes. |
| Geometry.MergedArea | r_tree.c:69-75 | The merged area is the area of the expanded rectangle. For well-formed inputs it is at least each input's area. |
| Geometry.LessIsStrictTotalOrder | r_tree.c:86-87 | Strict `<` on area increases, with the `DBL_MAX` sentinel on top, is irreflexive, transitive, asymmetric and total. |
| Geometry.AreaIncrease | r_tree.c:80-97 | The sentinel is returned exactly when the original area is 0; otherwise the result is merged area minus original area. That is ≥ 0 for well-formed inputs, and 0 when the child is contained. |
| Geometry.OverlapArea | r_tree.c:113-123 | The overlap is ≥ 0, positive exactly when the interiors meet (touching edges give 0), and the inner area when one rectangle contains the other. |
| Geometry.OverlapSymmetric | r_tree.c:113-123 | The overlap does not depend on argument order. |
| Geometry.Rect.constructor | r_tree.c:18-32 | `create_mbr` stores the four given coordinates. |
| Geometry.Rect.ExpandMbr | r_tree.c:101-110 | The new value is the expanded rectangle: it contains the child and the old value, and is unchanged when the child was contained. |
| Nodes.NodeCounter.constructor | r_tree.c:4 | The node counter starts at 0. |
| Nodes.RemovedAt | r_tree.c:197-203 | Removing position i keeps the elements before i and shifts the later ones left by one. |
| Nodes.Node.constructor | r_tree.c:147-176 | `initialize_rt` gives 0 members, capacity `max_members`, no parent, and the old counter as index; the counter goes up by one. |
| Nodes.Node.AddMember | r_tree.c:180-186 | A full node returns false and nothing changes. Otherwise the entry lands in slot `num_members`, the count goes up by one, and the other slots are unchanged. |
| Nodes.Node.RemoveIndexRecord | r_tree.c:189-206 | An empty node or a position ≥ the count gives None and nothing changes. Otherwise it returns the member at the position; later slots shift left in order, and the count drops by one. |
| Nodes.Node.MoveIndexRecord | r_tree.c:210-217 | An invalid position gives false and nothing changes. Otherwise the record leaves r1 and is appended to r2 if r2 has room. The result is false when r2 is full, with the record already gone from r1. |
| Tree.RTree.constructor | r_tree.c:126-186 | A one-entry tree, built from `initialize_ir`, `initialize_rt` and `add_member`: a valid arena whose root is a leaf holding entry 0, with no parent; the node counter goes up by one. |
| Tree.RTree.HostHoldsEntry | r_tree.c:180-186 | In a valid arena an entry's host is node k exactly when k's member list holds the entry. |
| Tree.RTree.IsLeaf | r_tree.c:222-224 | Reading slot 0 decides leafness. In a valid arena, either all members have no child or all do. |
| Tree.RTree.SetMbr | adjust_tree.c:14 | Rewriting one entry's rectangle keeps the arena valid and changes no other entry. |
| Tree.RTree.Chain | adjust_tree.c:11-16 | The hosting entries from a node up to the root are entry ids of the arena. |
| Tree.RTree.ChainDistinct | adjust_tree.c:9-17 | Each chain entry is hosted strictly above the start node, so no entry repeats. |
| Workers.PerWorker | choose_leaf.c:54 | per = ceil(n / T): T·per ≥ n, and T·(per − 1) < n. |
| Workers.WorkerRange | choose_leaf.c:79-80 | Worker i gets [i·per, (i + 1)·per), of length per. |
| Workers.WorkerRangesDisjoint | choose_leaf.c:79-80 | The ranges of two different workers do not overlap. |
| Workers.WorkerRangesCover | choose_leaf.c:79-80 | Every index below n lies in the range of worker x / per, which is below T. |
| ChooseLeaf.FirstMin | choose_leaf.c:7-21 | The returned position holds a smallest increase, and every earlier position holds a strictly larger one. |
| ChooseLeaf.FirstMinUnique | choose_leaf.c:12-18 | There is only one first minimum. |
| ChooseLeaf.SequentialGetInsertionIndex | choose_leaf.c:7-21 | The result is the first member with the smallest area increase, i.e. `FirstMin`. |
| ChooseLeaf.FirstLeastIncrease | choose_leaf.c:9-18 | The loop over the member rectangles, in slot order, returns the first position of smallest area increase. |
| ChooseLeaf.ChooseLeafSequential | choose_leaf.c:92-99 | The result is a leaf, reached by entering the first-minimum child at every level. A leaf is returned as it is. Nothing is modified. |
| ChooseLeaf.SequentialDescentIsMinimal | choose_leaf.c:90-99 | The sequential descent is one of the minimal descents. |
| ChooseLeaf.TieFreeDescentIsSequential | choose_leaf.c:90-91 | When no node has ties, every minimal descent ends at the sequential descent's leaf. |
| ChooseLeaf.InitializeThreads | choose_leaf.c:53-87 | All NUM_CORES result slots are reset. Worker i gets [i·per, (i + 1)·per) with per = ceil(n / T), and result slot i. |
| ChooseLeaf.ScanRange | choose_leaf.c:34-43 | Scans [start, end) ∩ [0, n), seeded with member 0's increase and index `start`. The result is (member 0's increase, `start`) unless an increase in range is strictly smaller, and then the first smallest one. |
| ChooseLeaf.ScanMemberRange | choose_leaf.c:34-43 | The same loop over the member rectangles, in slot order, with the same result. |
| ChooseLeaf.ParallelGetInsertionIndex | choose_leaf.c:25-49 | The worker writes the `ScanRange` result into its own slot only. |
| ChooseLeaf.ChooseLeafReduce | choose_leaf.c:117-127 | The chosen slot is the first among [0, T) with the strictly smallest value; its index is returned. |
| ChooseLeaf.WorkerValueNotBelowMin | choose_leaf.c:34-43 | No worker reports a value below the least increase of the node. |
| ChooseLeaf.CoveringWorkerReportsFirstMin | choose_leaf.c:34-43 | The worker whose range holds the first minimum reports exactly that increase and that index. |
| ChooseLeaf.EarlierWorkerReportsMore | choose_leaf.c:34-43 | A worker whose range ends at or before a first minimum at position > 0 reports a strictly larger value. |
| ChooseLeaf.ReductionFindsGlobalMin | choose_leaf.c:117-129 | Despite every worker seeding with member 0, the reduced index is the first minimum over all members. |
| ChooseLeaf.ParallelInsertionIndex | choose_leaf.c:111-129 | One level of the parallel selection returns the first member of minimal area increase, the index the sequential scan returns. |
| ChooseLeaf.ChooseLeafParallel | choose_leaf.c:102-133 | The result is a leaf, reached by entering the first minimal child at every level; it is the leaf of the sequential descent. A leaf is returned as it is. |
| ChooseLeaf.ThreeEntryExample | choose_leaf.c:7-21 | Entries (0,0,10,10), (0,0,1,1) and (20,20,30,30) with probe (5,5,6,6): index 0 is the first and the only minimum. |
| PickSeeds.Waste | pick_seeds.c:19 | For well-formed rectangles the waste is at least minus each area. |
| PickSeeds.SelfWaste | pick_seeds.c:19 | A self-pair wastes minus its area. |
| PickSeeds.WasteSymmetric | pick_seeds.c:19 | Waste does not depend on pair order. |
| PickSeeds.ScanRows | pick_seeds.c:17-26 | The nested scan of rows [lo, min(hi, n)) against all columns ends with seed (0, 1) unless some pair wastes strictly more, and then with the first pair of greatest waste. |
| PickSeeds.ScanChoiceBound | pick_seeds.c:17-26 | The scan's pair wastes at least as much as every pair in the scanned rows. |
| PickSeeds.ScanChoiceDistinct | pick_seeds.c:12-26 | For well-formed rectangles the scan never returns a self-pair. |
| PickSeeds.PickSeedsSequential | pick_seeds.c:6-29 | The result is the first row-major pair of greatest waste; both indices are in [0, n) and waste ≥ every pair. The two indices are distinct for well-formed rectangles. |
| PickSeeds.CappedThreads | pick_seeds.c:74-75 | The worker count is capped at NUM_CORES. |
| PickSeeds.PickSeedsChunk | pick_seeds.c:82-91 | Worker i gets rows [i·per, min(n, (i + 1)·per)) with per = ceil((n + 1) / T). |
| PickSeeds.SubsetSlot | pick_seeds.c:46 | The slot is start / (end − start), truncating. It faults exactly on an empty chunk (division by zero), and also when the quotient is not one of the NUM_CORES slots. |
| PickSeeds.FullChunkSlot | pick_seeds.c:46 | For a chunk of full length per, start / (end − start) = i·per / per = i, so the slot is the worker's own. |
| PickSeeds.SlotsCorrectByLastChunk | pick_seeds.c:46 | When every chunk before the last is full, the slot arithmetic is right for all workers exactly when it is right for the last one. |
| PickSeeds.TenEntriesTwoWorkers | pick_seeds.c:46 | With 10 entries and 2 workers the chunks [0, 6) and [6, 10) compute slots 0 and 6 / 4 = 1, so every slot is its own worker's. |
| PickSeeds.PickSeedsSubset | pick_seeds.c:33-69 | As written: fault as `SubsetSlot` says; otherwise the scanned pair and its waste go into the computed slot, and no other slot changes. |
| PickSeeds.PickSeedsSubsetFixed | pick_seeds.c:33-69 | Corrected: worker i writes its scan result into slot i only. |
| PickSeeds.ReduceWastes | pick_seeds.c:103-112 | The chosen slot is the first among [0, T) with the strictly greatest waste; its seed pointer is returned. |
| PickSeeds.ChunksCover | pick_seeds.c:82-91 | Every row below n lies in the chunk of one of the T workers. |
| PickSeeds.MaxWasteFromSlots | pick_seeds.c:103-112 | If each slot holds its own worker's answer, the reduced pair wastes at least as much as every pair. |
| PickSeeds.SingleWorkerSlotsCorrect | pick_seeds.c:46 | With one worker the slot arithmetic is always right. |
| PickSeeds.WorkerStep | pick_seeds.c:64-65 | A worker writing its computed slot keeps the description of all slots valid. |
| PickSeeds.CorrectSlotsHold | pick_seeds.c:64-65 | When every worker's slot is its own index, slot k holds worker k's answer. |
| PickSeeds.RunWorker | pick_seeds.c:94-100 | One worker runs `pick_seeds_subset` on its chunk. |
| PickSeeds.RunSubsets | pick_seeds.c:94-100 | The worker phase faults exactly when some worker faults. Otherwise every slot is either untouched or holds the answer of a worker assigned to it. |
| PickSeeds.ResetWastes | pick_seeds.c:116-118 | The first T wastes become 0 and the rest are unchanged. |
| PickSeeds.PickSeedsParallel | pick_seeds.c:72-121 | As written: the outcome is the capped worker phase, the reduction and the reset. The pair is of maximal waste whenever every worker's slot is its own index. |
| PickSeeds.PickSeedsParallelFixed | pick_seeds.c:72-121 | Corrected: the pair always has maximal waste and is distinct for well-formed rectangles; the first T wastes are reset. |
| PickSeeds.DivisionByZeroExample | pick_seeds.c:46 | With 4 entries and 3 workers, the third chunk is [4, 4) and divides by zero; likewise with 12 entries and 7 workers. |
| PickSeeds.SlotOutOfBoundsExample | pick_seeds.c:46 | With 111 entries and 12 workers, the last chunk [110, 111) computes slot 110. |
| PickSeeds.SixEntriesTwoWorkers | pick_seeds.c:82-91 | With 6 entries and 2 workers, the chunks [0, 4) and [4, 6) write slots 0 and 2. |
| PickSeeds.UnwrittenSlotExample | pick_seeds.c:103-112 | From zeroed slots, six unit squares and two workers give the never-written NULL seed pointer of slot 1. |
| LinearSplit.RouteSnoc | linear_split.c:21-31 | Routing one more member appends it to the side it is decided for. |
| LinearSplit.RoutePartition | linear_split.c:21-31 | The two sides together hold exactly the multiset of the members, in total as many as there are members. |
| LinearSplit.RouteMembers | linear_split.c:21-31 | An entry is on a side exactly when one of its occurrences is decided for that side. |
| LinearSplit.Fill | r_tree.c:180-186 | Repeated `add_member` appends while there is room and then drops. With enough room everything is appended; otherwise the node ends full. |
| LinearSplit.FillStep | r_tree.c:180-186 | Offering one more entry appends it exactly when the node has room. |
| LinearSplit.Offer | linear_split.c:26-28 | `add_member`'s result is ignored, and the node moves to the next prefix's `Fill`. |
| LinearSplit.SplitConservesMembers | linear_split.c:21-31 | When neither node overflows, the split loses and duplicates nothing. |
| LinearSplit.DistributeStep | linear_split.c:25-29 | Member i goes to the side its decision names. |
| LinearSplit.LinearSplitSequential | linear_split.c:13-32 | Members go, in slot order, to r1 exactly when ir1's increase is strictly smaller, else to r2 (ties included). The seed rectangles are the ones passed in, and rt is unchanged. |
| LinearSplit.SplitCode | linear_split.c:55-59 | The code is 0 exactly when the member goes to r1, and 1 otherwise. |
| LinearSplit.DecideRange | linear_split.c:45-61 | The worker loop with the corrected bound `i < num_members`: exactly the codes of [start, end) ∩ [0, n) are written, and every other slot keeps its value. It visits the same rows as the loop as written exactly when start ≤ n (`VisitedAsWritten`). |
| LinearSplit.LinearSplitSubset | linear_split.c:35-63 | As written: `split_nodes` is left unchanged. |
| LinearSplit.LinearSplitSubsetFixed | linear_split.c:35-63 | Corrected: the range's codes are written and nothing else. |
| LinearSplit.VisitedAsWritten | linear_split.c:45-49 | The rows the as-written loop visits, in order from start. From start ≤ n they are [start, end) ∩ [0, n); from start > n the whole range is walked. They all stay below n exactly when start ≤ n or the range is empty. |
| LinearSplit.VisitRangeAsWritten | linear_split.c:45-49 | The loop with only the `i == num_members` break visits exactly the rows `VisitedAsWritten` gives. |
| LinearSplit.GuardMissesRangePastEnd | linear_split.c:48-49 | With 5 members and 4 workers, the last range is [6, 8); the as-written loop visits both of its rows, which lie past the members. |
| LinearSplit.DistributeBySplitNodes | linear_split.c:98-103 | In index order, a member goes to r1 exactly when its code is 0, else to r2. |
| LinearSplit.LinearSplitParallel | linear_split.c:66-108 | As written: the worker ranges [i·per, (i + 1)·per) are computed, but members are distributed by the never-written `split_nodes` contents. |
| LinearSplit.UnwrittenCodeExample | linear_split.c:71 | A member the sequential split sends to r1 goes to r2 when its unwritten code is nonzero. |
| LinearSplit.LinearSplitParallelFixed | linear_split.c:66-108 | Corrected: the workers decide their disjoint ranges, and the outcome is the sequential split's. |
| AdjustTree.Adjusted | adjust_tree.c:9-17 | Only entries on the chain change. |
| AdjustTree.AdjustedHead | adjust_tree.c:14 | The parent entry of rt becomes its rectangle expanded by ir's. |
| AdjustTree.AdjustedContains | adjust_tree.c:4-17 | Every chain entry ends up containing the inserted rectangle and its own old rectangle. |
| AdjustTree.AdjustedIdempotent | adjust_tree.c:14-16 | Repeating the walk from the same rectangle changes nothing. |
| AdjustTree.AdjustTree | adjust_tree.c:9-17 | The new rectangles are `Adjusted` along the chain: each ancestor is expanded by the entry below it, only entry rectangles change, and a root rt changes nothing. |
| AdjustTree.AdjustTreeOutcome | adjust_tree.c:4-17 | Every chain entry contains the inserted rectangle and every other entry is untouched; a root rt changes nothing. A second call changes nothing whenever ir is not on the chain, as when ir is a member of rt or not yet hosted. |

## Left out

- Threads and shared memory. Workers run one after another in index order, so thread creation and joining are not modelled, and neither are the races these would allow. The process-wide result arrays are method parameters.
- Floating point. Coordinates, areas and wastes are unbounded integers: no rounding, no NaN behaviour of `fmin`/`fmax`, and no overflow. The `(float)` used in the `ceil` computations is exact integer ceiling division.
- C `int` overflow in the index arithmetic (`i * per`) is not modelled.
- Randomness (`random_mbr`, `generate_random_tree`), all printing and CSV output, and `main.c`'s benchmark harness.
- Memory management. Failed `malloc` and `MAX_TREE_SIZE` exits, `free_tree` and the leaked parameter objects are not modelled; every allocation is taken to succeed.
- `insert`, `insert_at_node` and the other functions declared in `r_tree.h` without a body in the repository are not part of this model.
- `initialize_ir` is not part of this model: the arena's entries stand for the index records it would allocate.
- Entries shared through one MBR object: each entry's rectangle is a value in the arena, so aliasing between entries is not modelled.
- The `biggest_waste` out-parameter of `pick_seeds_sequential` is never written by the C code, so the model has no such parameter.
- Nodes.Node.RemoveIndexRecord: a negative position is excluded by a precondition, because the C code does not reject it and would read before the array.
- Tree.RTree.IsLeaf: requires at least one member, because the C code reads slot 0 unconditionally.
- ChooseLeaf.ChooseLeafSequential: requires every node of the arena to be non-empty (`AllNonEmpty`), because each level calls `is_leaf`.
- ChooseLeaf.ChooseLeafParallel: requires 1 ≤ numThreads ≤ NUM_CORES. C divides by the thread count, and worker slots past NUM_CORES would be written out of bounds.
- PickSeeds.PickSeedsSequential: requires at least two entries, because the C code reads entries 0 and 1 to seed the scan.
- PickSeeds.PickSeedsParallel: a worker that divides by zero or computes an out-of-bounds slot makes the whole call a `Fault`; the undefined behaviour that follows in C is not modelled. The slots written by earlier workers are not described after a fault.
- PickSeeds.PickSeedsParallel: a never-written seed slot holds whatever the result arrays held before the call (NULL for the zero-initialised globals), given as the arrays' initial contents.
- LinearSplit.LinearSplitParallel: the never-written contents of the freshly allocated `split_nodes` array are an arbitrary parameter.

## Findings

| source | as written | input that shows it | evidently intended | confidence | as-written member | corrected member |
|---|---|---|---|---|---|---|
| pick_seeds.c:46 | The result slot is `start_index / (end_index - start_index)`. | 4 entries and 3 workers: the third chunk is [4, 4), a division by zero. 111 entries and 12 workers: slot 110 of a 12-slot array. 6 unit squares and 2 workers: slot 1 is never written, and the reduction returns its NULL pointer. | Worker i writes slot i. | not executed | PickSeeds.PickSeedsParallel (PickSeeds.DivisionByZeroExample, PickSeeds.SlotOutOfBoundsExample, PickSeeds.UnwrittenSlotExample) | PickSeeds.PickSeedsParallelFixed |
| linear_split.c:41, linear_split.c:98-103 | `end_index` is initialised from `start_index`, so a worker decides nothing. No worker is started, and the distribution reads the freshly allocated, never-written `split_nodes`. | A one-member node whose member lies inside ir1's rectangle goes to r2 whenever the unwritten code is nonzero. | Workers decide [i·per, (i + 1)·per) into `split_nodes`, then the members are distributed by it, as in the sequential split. | not executed | LinearSplit.LinearSplitParallel (LinearSplit.LinearSplitSubset, LinearSplit.UnwrittenCodeExample) | LinearSplit.LinearSplitParallelFixed |
| linear_split.c:48-49 | The only bound check in the worker loop is `i == num_members`. | 5 members and 4 workers: per = 2, and the last range [6, 8) starts past the members, so rows 6 and 7 would be read and written. | Stop at `i < num_members`, as the ChooseLeaf and PickSeeds workers do. | not executed | LinearSplit.GuardMissesRangePastEnd | LinearSplit.DecideRange |
