# Pixel classification, connected components and ranking

A Dafny model of the image-segmentation core of an air-quality / pavement-map project, together with the
list utilities it relies on:

- `find_red_pixels` / `find_cyan_pixels` turn a colour image into a mask. The mask holds 0 (subject,
  drawn white) where the pixel passes the colour test against the `upper` / `lower` thresholds, and 1
  everywhere else (`classify.dfy`).
- `detect_connected_components` scans the image in raster order. At each unlabelled foreground cell
  (channel 0 above 200) it starts a breadth-first flood fill with a FIFO queue over the eight
  neighbours. It writes the component's id into the label grid `MARK`, with ids handed out
  1, 2, 3, ... in discovery order, and reports `(id, size)` per component (`labeling.dfy`, on
  `grid.dfy`).
- `detect_connected_components_sorted` reads a label grid back in four steps (`ranking.dfy`):
  - It drops the zeros and takes the largest label as the number of components.
  - It counts each id with `countvalue`.
  - It ranks the components by size with an insertion rule. Equal sizes end up in descending id order.
  - It draws the two first-ranked components as a mask.
- `pipeline.dfy` relates the ranking to the labeler's output.
- `utils.py` provides `sumvalues`, `maxvalue`, `minvalue`, `meannvalue`, `countvalue`, `length`,
  `sort_list` (descending insertion sort) and `median` (`utils.dfy`). Python exceptions become
  `Result` values (`errors.dfy`).
- `examples.dfy` works through the `sort_list`, `median` and tie-break examples.

Each grid is an `array2` that the methods fill cell by cell, as the numpy arrays are. The queue is a
`seq` that is popped at the front and appended at the back.

The proofs reason about the label grid through its value snapshot `Snap(mark)`, a map from cells to
labels. The central invariants of the flood are:

- `Labels`: every label is a seed's id, and the labelled cell is 8-connected to that seed.
- `Closed`: outside the cells still pending, labels do not leak to unlabelled foreground neighbours.
- `Scanned`: every foreground cell already passed is labelled.

Together they yield the main result, `DetectConnectedComponents`: two foreground cells share an id
exactly when a chain of 8-adjacent foreground cells joins them.

Behaviour of the code worth noting:

- Ranking a grid with no non-zero label fails in `max` with a `ValueError`, before any report is
  written. Otherwise the report is written, and reading the first two ranked entries then raises
  `IndexError` whenever the largest label is below 2 (one component, or only negative labels, which give
  an empty list).
- The ranking does not take the labeler's list. It recomputes the list from the grid: its length is the
  largest label, and each size is that label's count. `Pipeline.RankingAfterDetection` shows that on the
  labeler's own grid this is the same list.
- Thresholds are not checked for being numeric. The foreground cutoff 200 is a constant in the labeler,
  not a parameter.

## Model

| member | source | states |
|---|---|---|
| Utils.SumValues | utils.py:13-19 | the total is the sum of the list (0 for the empty list) |
| Utils.SumOfPermutation | utils.py:13-19 | two lists with the same elements have the same sum, whatever the order |
| Utils.Length | utils.py:139-143 | the count is the number of elements |
| Utils.MaxValue | utils.py:37-48 | IndexError exactly on the empty list; otherwise an index whose element no element exceeds, with every earlier element strictly smaller (first occurrence) |
| Utils.MinValue | utils.py:66-76 | IndexError exactly on the empty list; otherwise an index whose element no element undercuts, with every earlier element strictly larger (first occurrence) |
| Utils.MeanValue | utils.py:94-106 | ZeroDivisionError exactly on the empty list; otherwise the sum over the (positive) count |
| Utils.CountValue | utils.py:119-123 | the count is the number of occurrences of the value (its multiplicity) |
| Utils.InsertPos | utils.py:166-171 | the insertion point: every entry before it is strictly larger than the item; the entry at it (if any) is not larger |
| Utils.InsertKeepsOrder | utils.py:166-171 | inserting at that point keeps a non-increasing list non-increasing |
| Utils.InsertAddsOne | utils.py:166-171 | inserting adds exactly the item and loses nothing (multisets) |
| Utils.InsertAtFirstMatch | utils.py:166-169 | the first index where `item >= sorted_l[index]` holds, or the end, is the insertion point |
| Utils.SortDescSorts | utils.py:158-172 | the insertion rule yields a non-increasing permutation of the input of the same length |
| Utils.SortList | utils.py:158-172 | sort_list returns the insertion-rule result, non-increasing and a permutation of the input |
| Utils.Median | utils.py:189-198 | IndexError exactly on the empty list; otherwise the elements at `n // 2` and `~mid` of the sorted list, both elements of the input, equal for odd length, bracketed by the larger and smaller halves |
| Grid.ConnectedSelf | intelligence.py:89-92 | a foreground seed is connected to itself |
| Grid.ConnectedStep | intelligence.py:110-114 | a chain reaching a cell extends to any foreground neighbour |
| Grid.ConnectedSymmetric | intelligence.py:110-114 | 8-connectivity is symmetric |
| Grid.ConnectedTransitive | intelligence.py:110-114 | 8-connectivity is transitive |
| Labeling.ComponentList | intelligence.py:141-143 | entry j is (j + 1, number of cells labelled j + 1), for ids 1..n |
| Labeling.RemoveFirst | intelligence.py:107 | list.remove: the list with its first occurrence of the value cut out, order kept; one element shorter, same other elements, and the value gone when the list had no duplicates |
| Labeling.RemoveFirstKeepsOrder | intelligence.py:107 | removing a cell from a list in raster order leaves it in raster order |
| Labeling.SliceOutKeepsOrder | intelligence.py:107 | cutting one position out of a list in raster order leaves it in raster order |
| Labeling.CandidatesWithout | intelligence.py:99-107 | the clipped 3-by-3 block around a cell, in raster order, contains the cell, and without it is exactly the cell's in-grid 8-neighbours, still in raster order |
| Labeling.NeighbourRow | intelligence.py:101-106 | one row offset of the inner loop adds exactly that row's in-image cells of the block, keeping raster order |
| Labeling.Neighbours | intelligence.py:99-107 | the list holds exactly the in-grid cells adjacent to the current one, in raster order (the order of the offset loops) |
| Labeling.SetLabel | intelligence.py:113 | the label grid changes at that cell only, to the new id |
| Labeling.NewSeed | intelligence.py:89-91 | a new seed after all earlier ones keeps every label attached to its seed |
| Labeling.LabelKeepsLabels | intelligence.py:112-113 | labelling a foreground cell connected to the newest seed keeps all labels sound |
| Labeling.LabelKeepsClosed | intelligence.py:112-114 | labelling a cell that becomes pending keeps the closure invariant |
| Labeling.LabelKeepsScanned | intelligence.py:113 | labelling never unlabels a passed foreground cell |
| Labeling.LabelKeepsSeeds | intelligence.py:113 | labelling an unlabelled cell keeps every seed's id |
| Labeling.LabelMovesCell | intelligence.py:113 | the cell moves from the unlabelled set to the set of its new id; all other sets are unchanged |
| Labeling.LabelCountsCell | intelligence.py:113-115 | the new id's cell count grows by one, the unlabelled count drops by one, and the other ids' cells are unchanged |
| Labeling.CloseCell | intelligence.py:110-115 | once all neighbours of the popped cell are labelled, it stops being pending |
| Labeling.FloodReaches | intelligence.py:112 | an unlabelled foreground neighbour of the flood is connected to the newest seed and comes after it |
| Labeling.FloodStepLabels | intelligence.py:112-113 | labelling such a neighbour keeps labels and scan sound |
| Labeling.FloodStepQueue | intelligence.py:113-114 | and keeps the seeds' ids, the queue on the current id, and closure |
| Labeling.FloodStep | intelligence.py:112-114 | the flood invariant survives labelling and queueing a neighbour |
| Labeling.CountStep | intelligence.py:113-115 | `size` stays the cell count of the current id, and the earlier ids' cells are untouched |
| Labeling.FloodStartLabels | intelligence.py:89-91 | labelling the seed with the next id keeps labels sound and the scan complete up to the seed |
| Labeling.FloodStartSeeds | intelligence.py:90-91 | the seed carries the new id, and the earlier seeds keep theirs |
| Labeling.FloodStartCount | intelligence.py:90-94 | the new id was unused, so `size = 1` counts its cells |
| Labeling.FloodStart | intelligence.py:89-94 | the flood invariant holds once the seed is labelled and queued |
| Labeling.LabelKeeps | intelligence.py:112-113 | only unlabelled cells are ever written |
| Labeling.NeighbourSettled | intelligence.py:112 | a labelled foreground neighbour of the flood already carries the current id |
| Labeling.VisitNeighbour | intelligence.py:111-115 | one neighbour: an unlabelled foreground cell gets the current id, joins the back of the queue and adds 1 to the size; otherwise grid, queue and size are unchanged (`VisitStep`). The flood invariant is kept, earlier labels are unchanged, and the unlabelled-plus-queued count is unchanged |
| Labeling.SettledStep | intelligence.py:110-115 | the visited foreground neighbours all carry the current id |
| Labeling.VisitAll | intelligence.py:110-115 | after the neighbour loop, grid and queue are the in-order fold of `VisitStep` over the neighbours (`Visited`), the size grew by the cells queued, and every foreground neighbour carries the current id |
| Labeling.Visited | intelligence.py:110-115 | visiting neighbours in order: the queue only grows at the back, every cell added is one of the neighbours and carries the flood's id, the grid's cells are the same, and cells outside the neighbours keep their labels |
| Labeling.VisitedNext | intelligence.py:110-115 | visiting one more neighbour is one more `VisitStep` |
| Labeling.FinishCell | intelligence.py:96-115 | the popped cell is no longer pending |
| Labeling.TakeCell | intelligence.py:96 | popping the front of the queue leaves it pending with the current id |
| Labeling.ExpandCell | intelligence.py:95-115 | one iteration of the queue loop: the front cell is popped and its in-grid 8-neighbours, in raster order, are visited as `Visited` says; the flood invariant is kept and unlabelled + queued cells strictly decrease (termination) |
| Labeling.Flood | intelligence.py:90-115 | the whole component of the seed is labelled: the invariant with an empty queue, and `size` is the number of cells with the new id |
| Labeling.PathKeepsLabel | intelligence.py:110-115 | along a foreground chain from a labelled cell, all cells share its label |
| Labeling.SameLabelConnected | intelligence.py:89-115 | cells with the same label are connected (through their seed) |
| Labeling.ConnectedSameLabel | intelligence.py:110-115 | connected labelled cells carry the same label |
| Labeling.LabelsMatchConnectivity | intelligence.py:86-115 | same label if and only if connected, for labelled cells |
| Labeling.ProgressStart | intelligence.py:81-83 | the all-zero grid with no components satisfies the scan invariant |
| Labeling.ScannedPast | intelligence.py:87-89 | the scan may move past a labelled or background cell |
| Labeling.BeforeNext | intelligence.py:87 | seeds before a cell stay before the next cell |
| Labeling.ScanPast | intelligence.py:87-89 | skipping a labelled or background cell keeps the scan invariant |
| Labeling.ScannedNextRow | intelligence.py:86-87 | the end of a row is the start of the next |
| Labeling.SeedsNextRow | intelligence.py:86-87 | seeds of a finished row come before the next row |
| Labeling.NextRow | intelligence.py:86-87 | the scan invariant carries over to the next row |
| Labeling.AppendComponent | intelligence.py:116 | appending (id, size) keeps the report equal to the per-id counts, summing to the labelled cells |
| Labeling.SeedsBefore | intelligence.py:89-90 | the new seed comes after every earlier seed |
| Labeling.ProgressAfterFlood | intelligence.py:89-116 | a flood followed by its report line keeps the scan invariant |
| Labeling.VisitCell | intelligence.py:87-116 | one scan step keeps the scan invariant (a new id exactly at an unlabelled foreground cell) |
| Labeling.ScanRow | intelligence.py:87-116 | one row of the scan keeps the scan invariant |
| Labeling.ScannedAll | intelligence.py:86-117 | after the scan, a cell is labelled if and only if it is foreground |
| Labeling.FinalComponents | intelligence.py:116-118 | the report is the per-id count list, and the sizes add up to the number of foreground cells |
| Labeling.FinalLabels | intelligence.py:86-120 | the returned grid: labels in 0..count, 0 exactly on background, no cell before its seed |
| Labeling.FinalSeeds | intelligence.py:89-91 | id j + 1 sits at the j-th seed |
| Labeling.FinalConnectivity | intelligence.py:86-120 | foreground cells share an id if and only if they are 8-connected |
| Labeling.ScanImage | intelligence.py:81-117 | the row-major scan over a fresh zero grid ends with the scan invariant at the end of the image |
| Labeling.DetectConnectedComponents | intelligence.py:64-120 | the label grid is a fresh array with the image's shape; labels are 0 exactly on background; ids 1..count are dense and in raster discovery order; same id if and only if 8-connected; the report equals the per-id counts and sums to the foreground count |
| Ranking.CellsWithBeforeNext | intelligence.py:136 | moving the raster position by one adds that cell to the cells seen with its label |
| Ranking.CellsWithBeforeRowEnd | intelligence.py:136 | the end of a row is the start of the next |
| Ranking.CellsWithBeforeEnd | intelligence.py:136 | at the end of the grid, all cells with a label are seen |
| Ranking.GatherCell | intelligence.py:136 | keeping a non-zero label and dropping a zero keeps counts equal to cells seen |
| Ranking.GatherRowEnd | intelligence.py:136 | the counts carry over to the next row |
| Ranking.GatherStart | intelligence.py:136 | the empty list counts the cells before the first |
| Ranking.GatherEnd | intelligence.py:136 | at the end, each non-zero label occurs once per cell carrying it |
| Ranking.GatherRow | intelligence.py:136 | one row of the flattening keeps the counts |
| Ranking.NonZeroLabels | intelligence.py:136 | MARK_no_0 has no zero, and each non-zero label occurs exactly as often as cells carry it |
| Ranking.Largest | intelligence.py:137 | max: ValueError exactly on the empty list; otherwise an element no element exceeds |
| Ranking.CountComponents | intelligence.py:140-143 | entry j is (j + 1, occurrences of j + 1), for the ids 1..num (none when num < 1) |
| Ranking.CountsAreComponentList | intelligence.py:136-143 | those counts are the per-id cell counts of the grid |
| Ranking.TiesAfterPlacing | intelligence.py:149-157 | placing a newest component at the insertion point keeps equal sizes in descending id order |
| Ranking.InsertNewestKeepsTies | intelligence.py:149-157 | the same, for the insertion rule |
| Ranking.RankedTies | intelligence.py:145-157 | ranking a list with growing ids puts equal sizes in descending id order |
| Ranking.InsertComponent | intelligence.py:148-157 | both branches (front, or before the first entry not larger, or the end) insert at the rule's point |
| Ranking.RankComponents | intelligence.py:145-157 | the ranked list is the insertion-rule result, non-increasing by size and a permutation of the input |
| Ranking.RankedComponentList | intelligence.py:139-157 | the ranked component list is sorted by size, ties by descending id, a permutation with the same total size |
| Ranking.TopTwoMask | intelligence.py:169-174 | a fresh grid of the label grid's shape, 0 exactly where the label is one of the two ids, 1 elsewhere |
| Ranking.LabelsAllZero | intelligence.py:136-137 | no surviving label means every cell is 0 |
| Ranking.LargestIsLabel | intelligence.py:136-137 | the max of the surviving labels is the largest non-zero label of the grid, and some cell carries it |
| Ranking.RankLabels | intelligence.py:136-157 | ValueError exactly when every cell is 0; otherwise the ranked component list for ids 1..largest label |
| Ranking.DetectConnectedComponentsSorted | intelligence.py:123-176 | ValueError exactly on an all-zero grid; the report ranks the per-id counts; the mask exists exactly when at least two components do (IndexError otherwise); the mask is 0 exactly on the two first-ranked ids and 1 everywhere else |
| Pipeline.RankedEntries | intelligence.py:140-157 | every ranked entry is an id in 1..n with its true cell count |
| Pipeline.LargestLabelIsCount | intelligence.py:137 | on the labeler's grid the largest label is the number of components, and the grid is all zero exactly when there are none |
| Pipeline.RankingAfterDetection | intelligence.py:137-157 | on the labeler's grid, the ranking ranks exactly the labeler's report |
| Pipeline.TopTwoAfterDetection | intelligence.py:167-174 | after detection, the mask is 0 exactly on foreground cells of the two first-ranked components and 1 on every other cell; those two are at least as large as any other |
| Classify.MarkPixels | intelligence.py:23-29 | a fresh grid of the image's shape, 0 exactly where the colour test holds, 1 elsewhere |
| Classify.FindRedPixels | intelligence.py:6-32 | the red mask: 0 exactly at pixels with red above `upper`, green and blue below `lower` |
| Classify.FindCyanPixels | intelligence.py:35-61 | the cyan mask: 0 exactly at pixels with red below `lower`, green and blue above `upper` |
| Classify.RedCyanDisjoint | intelligence.py:28-57 | over channels in 0..1 (as read from a PNG), some pixel is both red and cyan if and only if a value strictly between `upper` and `lower` lies in 0..255: `upper < lower`, `upper < 255`, `lower > 0` |
| Classify.DefaultsDisjoint | intelligence.py:6 | with the defaults 100 / 50, no pixel is both |
| Examples.SortListExample | _test_utils.py:93-94 | the insertion rule sorts [3, 1, 2, 4] into [4, 3, 2, 1] |
| Examples.MedianExample | _test_utils.py:106-107 | the median of [3, 1, 2] reads 2 at both middle positions |
| Examples.RankingExample | intelligence.py:149-157 | sizes 3, 5, 3 for ids 1, 2, 3 rank as 2, 3, 1 |

## Left out

- Image files: reading images (`plt.imread`) and writing them (`plt.imsave`) are not modelled. The
  methods take and return the pixel grids.
- Report files: the text files `cc-output-2a.txt` and `cc-output-2b.txt` are returned as lists of
  `Component(id, size)`. Their line format and the total line are not modelled; the total is the
  list's length.
- Classify.MarkPixels: channels are exact reals in 0..1, as read from a PNG image, so float rounding in
  `* 255` is not modelled. Neither are the integer channels 0..255 of a JPEG image, nor the uint8
  wrap-around that `* 255` would give on them.
- Labeling.DetectConnectedComponents: the image is its channel-0 intensities as integers. The round
  trip mask → grey image → re-read is not modelled.
- Utils.MeanValue: returns the numerator and denominator; the float division is left to the caller.
- Utils.Median: returns the two middle elements; the final division by 2 is left to the caller.
- The `utils` functions work on lists of integers. Float elements and the `TypeError` raised for
  non-numeric elements are not modelled, because a typed sequence cannot hold them.
- `length`'s `TypeError` for a non-sequence is not modelled, and neither is `maxvalue`'s debug
  `print`.
- The unused `*args` / `**kwargs` of the detection functions are not modelled.
- `main.py` (menus), `reporting.py` (pandas aggregates) and `monitoring.py` (network API) are not part
  of this model.
- Integer widths are not modelled. The `utils` lists hold Python integers, which are unbounded like
  Dafny's `int`. MARK, the flattened label list and the top-two mask are NumPy integer arrays, but an id
  never exceeds the number of pixels, so no value there can overflow.
