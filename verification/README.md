# diff: a verified model of the two-sequence diff engine

This project models the core of the Go package `diff` (Mark Summerfield). The package is a simplified
form of Python difflib's sequence matcher. It compares two sequences A and B and describes how to get
from A to B as tagged spans and blocks: `=` Equal, `+` Insert, `-` Delete, `%` Replace.

Both engines run the same pipeline:

1. **chainBseq** builds the element index `b2j`. It maps each element of B (or each key) to the
   ascending list of its positions.
2. **longestMatch** searches one window (a `Quad`) for the longest common run. It uses a rolling map
   `j2len`, then stretches the run backwards and forwards while the neighbouring elements agree.
3. **matches** keeps a worklist of windows: it pops one, records its run and pushes the windows before
   and after the run. It then sorts the runs, coalesces adjacent ones and appends the sentinel
   `(|A|, |B|, 0)`.
4. **spansForMatches** turns the runs into spans: a Replace, Delete or Insert span for each gap, and an
   Equal span for each run.
5. **Blocks** slices A and B along the spans.

The equality engine `Diff` (diff2.go) compares elements with `==`. It prunes the index when B has 200
elements or more. The keyed engine `DiffKeyFn` (bykey.go) compares `keyfn(x) == keyfn(y)` and never
prunes.

Layout:

- `primitives.dfy` (module `Primitives`) holds the records of structs.go.
- `index.dfy` (`ElementIndex`) specifies the index and its pruning.
- `runs.dfy` (`Runs`) says what a common run is. It says what the first longest run of a window is, and
  holds the proof steps of the rolling search.
- `normalize.dfy` (`Normalize`) holds the worklist invariant and the termination measure, the sort, and
  coalescing.
- `spans.dfy` (`Spans`) holds the span builder, tiling and block slicing.
- `search.dfy` (`Search`) holds the imperative search: longestMatch and matches.
- `diff2.dfy` (`Diff2`) holds the class `Diff`.
- `bykey.dfy` (`ByKey`) holds the class `DiffKeyFn`.
- `complete.dfy` (`Complete`) proves that the gap spans hold no equal pair, and the identity case.
- `worked.dfy` (`Worked`) holds worked examples from the package's tests.

The search code is written once, over two *key sequences* `ka` and `kb`:

- `Diff` passes A and B themselves.
- `DiffKeyFn` passes `Keys(A, keyfn)` and `Keys(B, keyfn)`.

In Go, bykey.go repeats the search code almost line for line, so each `Search` member below models both
files. The table cites the diff2.go lines. The bykey.go counterparts are:

- longestMatch at bykey.go:120-163;
- the worklist loop at bykey.go:73-94;
- matches at bykey.go:70-118.

### What the search finds

The rolling search can only see B positions that the index still lists. The model names this view:
`Runs.Mask(kb, b2j)` replaces every element of B whose key was pruned by `None`, and `Runs.Lift(ka)`
wraps A's elements in `Some`. Pruning drops whole lists and never edits one, so every key that is kept
lists all of its positions (`ElementIndex.ListsComplete`); a class's `Valid()` says exactly that, plus
soundness of the index, plus completeness when nothing was pruned.

- The row scan of longestMatch computes the *first longest run of the masked view*: the longest run
  whose B elements are all still indexed, and of those the first in scan order (`Runs.FirstLongest`).
- The two stretching loops then extend it backwards and forwards while the real elements agree
  (`Runs.Backward`, `Runs.Forward`). `Runs.LongestIn` is the result; `Search.LongestMatch` returns
  exactly it.
- When no key was pruned the masked view has the same runs as the keys (`Runs.FullMask`), so
  longestMatch returns the first longest run of its window. This holds for `DiffKeyFn` always and for
  `Diff` when B has fewer than 200 elements. With a pruned index the result is still exactly
  `LongestIn`, but it need not be the longest run: a run through a pruned element is invisible to the
  scan.
- The worklist is specified as a function: `Normalize.Pending(queue)` is the list of runs that popping
  windows from the back of `queue` records, in order. `Normalize.MatchList(ka, kb, b2j)` sorts these
  runs, coalesces adjacent ones and appends the sentinel. `Search.Matches` returns exactly it, and both
  classes' `Spans` and `Blocks` are stated over it.

### Top-level results

These are stated on both classes:

- The spans are exactly those of `MatchList`.
- The spans tile A and B from (0, 0) to (|A|, |B|).
- Every span is meaningful. An Equal span pairs equal (key-equal) non-empty ranges. An Insert span has
  an empty A range and a Delete span an empty B range. A Replace span has two non-empty ranges.
- Completeness: with a complete index, no Insert, Delete or Replace span pairs an element of A with an
  equal element of B (`Complete.GapsHaveNoCommonPair`). Any such pair lies inside a window the worklist
  queues, so a recorded run covers its row or column; sorting and coalescing keep that cover, and the
  gap spans lie strictly between runs.
- Identity: a non-empty sequence compared with itself gives one Equal span and one Equal block
  (`Complete.IdenticalMatches`). For `Diff` this needs B shorter than 200, so that nothing is pruned.
- Block p carries span p's tag and exactly the slices of A and B the span names.
- The blocks concatenate back to A and to B.
- The payloads (`Items`) of the non-Delete blocks concatenate back to B.
- An empty side gives a single Insert or Delete, or nothing.

The bounds checks `span.Aend <= len(A)` and `span.Bend <= len(B)` in Blocks are kept as written. The
proofs show they always pass: each block covers exactly its span's slices.

Module `Worked` (`worked.dfy`) pins down whole runs of the package's own examples: the spans of Test011,
the longest run and blocks of Test012, and the blocks of the name-keyed example.

## Model

| member | source | states |
|---|---|---|
| Primitives.TagString | structs.go:17-29 | Equal, Insert, Delete and Replace render as "=", "+", "-" and "%"; every other tag value is the panic case, giving None |
| Primitives.TagStringInjective | structs.go:17-27 | two named tags with the same symbol are the same tag |
| Primitives.MatchLessStrictTotalOrder | structs.go:75-83 | matchLess is irreflexive, transitive and total on distinct matches |
| ElementIndex.PositionsExact | diff2.go:47-54 | the positions listed for x ascend strictly and are exactly the positions of x in B |
| ElementIndex.IndexStep | diff2.go:48-53 | appending position i under B[i] turns the index of B[..i] into the index of B[..i+1] |
| ElementIndex.IndexExact | diff2.go:47-54 | the unpruned index lists j under x exactly when B[j] == x, so each position is in exactly one list and every list ascends |
| ElementIndex.Pruned | diff2.go:55-67 | for B of 200 or more, no list longer than 1 + len/100 survives and every list within the limit is kept unchanged; shorter B keeps everything |
| ElementIndex.PrunedSound | diff2.go:47-67 | pruning deletes whole lists and never edits one: the index stays sound, every key still present lists all positions of its element, and for B shorter than 200 the index stays complete |
| Diff2.Diff.constructor | diff2.go:41-45 | New stores A and B and leaves b2j equal to the pruned index of B |
| Diff2.Diff.ChainBseq | diff2.go:47-68 | the build loop fills the full index of B, then pruning leaves Pruned(Index(B), len(B)) |
| Diff2.Diff.DropPopular | diff2.go:55-67 | collecting the keys over the limit and deleting them yields exactly Pruned of the old index |
| Diff2.Diff.Spans | diff2.go:95-98 | the spans are exactly those of MatchList(A, B); they tile A and B from (0,0) to (len A, len B) and each is meaningful; an empty side gives one Insert or Delete or nothing; for B shorter than 200 no Insert, Delete or Replace span pairs equal elements, and a non-empty A == B gives the one Equal span over both |
| Diff2.Diff.Blocks | diff2.go:74-88 | block p carries the tag of span p of MatchList(A, B) and exactly its slices of A and B; the blocks concatenate back to A and B and the non-Delete payloads back to B; Equal blocks hold identical items; an empty side gives one Insert or Delete block or none; a non-empty A == B shorter than 200 gives one Equal block |
| ByKey.DiffKeyFn.constructor | bykey.go:23-27 | NewKeyFn stores A, B and keyfn and leaves b2j equal to the full index of B's keys |
| ByKey.DiffKeyFn.ChainBseq | bykey.go:29-38 | every position j of B is listed under keyfn(B[j]), in ascending order, and nothing is ever pruned |
| ByKey.DiffKeyFn.Spans | bykey.go:65-68 | the spans are exactly those of MatchList over the keys; they tile A and B and are meaningful over the keys; an empty side gives one Insert or Delete or nothing; no Insert, Delete or Replace span pairs key-equal items; equal key sequences give one Equal span |
| ByKey.DiffKeyFn.Blocks | bykey.go:44-58 | block p carries the tag and slices of span p of MatchList over the keys; the blocks concatenate back to A and B and the non-Delete payloads back to B; Equal blocks agree by key item by item; an empty side gives one block or none; equal key sequences give one Equal block of all of A and B |
| Search.AnchorsFor | diff2.go:161-162 | the list looked up for A[i] (empty when A[i] is not a key) ascends and names exactly the columns where the masked B agrees with A[i] |
| Search.VisitAnchor | diff2.go:170-177 | the new map is the old one with j set to k = j2len[j-1] + 1 (1 when j-1 has no entry); the best run becomes (i-k+1, j-k+1, k) exactly when k > bestSize and is otherwise kept; the row scan's invariant moves past j |
| Search.ScanRow | diff2.go:160-180 | one row of the rolling search: anchors left of the window are skipped, the first past it ends the row, and the new map describes row i for the next row |
| Search.ScanRows | diff2.go:155-181 | after all rows the best run is the first longest run of the window in the masked view: the longest run whose B elements are all indexed, the first in scan order among those |
| Search.LongestMatch | diff2.go:150-193 | returns exactly LongestIn(q): a genuine run inside the window that cannot be extended at either end inside it; with a complete index it is the window's first longest run |
| Search.Stretch | diff2.go:182-191 | the two stretching loops compute Forward(Backward(best)) |
| Search.StretchBefore | diff2.go:182-187 | the backward loop computes Backward(m0) |
| Search.StretchAfter | diff2.go:188-191 | the forward loop computes Forward(m0) |
| Search.FindRuns | diff2.go:103-124 | the worklist loop records exactly Pending([whole window]), and those runs are genuine, non-empty and pairwise separated |
| Search.WorklistStep | diff2.go:106-123 | one pop and push keeps the worklist invariant, leaves "recorded so far + Pending(queue)" unchanged, and lowers the measure (queued width, queue length) lexicographically |
| Search.CoalesceSorted | diff2.go:126-146 | the coalescing loop and the sentinel compute Normalized(sorted, len A, len B) |
| Search.Matches | diff2.go:100-148 | returns exactly MatchList(A, B): genuine runs, each wholly before the next, non-empty except the final sentinel (len A, len B, 0), and no two runs before the sentinel adjacent |
| Normalize.WeightStep | diff2.go:113-123 | replacing a popped window by its children removes at least 2k cells from the queued width |
| Normalize.ChildrenInside | diff2.go:115-122 | each pushed window lies inside its parent, the two come one before the other, and both are clear of the run |
| Normalize.WorklistSplit | diff2.go:113-123 | recording a non-empty run and pushing its children keeps the worklist invariant |
| Normalize.WorklistDrop | diff2.go:105-113 | discarding a window whose run is empty keeps the worklist invariant |
| Normalize.PendingStep | diff2.go:105-123 | popping q from rest + [q] records LongestIn(q) and continues with rest + its children when the run is non-empty, and continues with rest when it is empty |
| Normalize.PendingInvStep | diff2.go:105-123 | one pop keeps the worklist invariant and the output of the remaining loop |
| Normalize.PendingInv | diff2.go:105-124 | everything the loop goes on to record, appended to what it has recorded, satisfies the worklist invariant with an empty queue |
| Normalize.FoundDistinct | diff2.go:114 | the runs the worklist records never repeat |
| Normalize.InsertionSortSpec | diff2.go:125 | the insertion sort orders the runs by matchLess and only rearranges them |
| Normalize.InsertionSortSorted | diff2.go:125 | sorting runs that are already in order leaves them unchanged |
| Normalize.SortMatches | diff2.go:125 | the sort loop computes InsertionSort(ms): sorted by matchLess and a permutation of the runs found |
| Normalize.InsertSortedSorted | diff2.go:125 | inserting into a sorted sequence keeps it sorted |
| Normalize.InsertSortedPerm | diff2.go:125 | inserting adds exactly the one element |
| Normalize.SortedRunsIncrease | diff2.go:105-125 | sorted separated runs lie each wholly before the next in both sequences |
| Normalize.JoinRuns | diff2.go:131-132 | a run adjacent to the accumulated run extends it to a longer genuine run |
| Normalize.CoalesceRuns | diff2.go:126-145 | coalescing genuine non-empty runs gives genuine non-empty runs |
| Normalize.CoalesceOrder | diff2.go:126-145 | coalescing increasing runs keeps them increasing and leaves no two consecutive runs adjacent |
| Normalize.NormalizedWellFormed | diff2.go:126-147 | the normaliser's result is a well-formed match list whose runs before the sentinel are pairwise non-adjacent |
| Normalize.WellFormedSorted | diff2.go:125-147 | the match list is strictly ascending under matchLess, so it is sorted by (astart, bstart) |
| Normalize.MatchListWellFormed | diff2.go:100-148 | the recorded runs, sorted, coalesced and closed by the sentinel, form a well-formed match list with no two runs before the sentinel adjacent |
| Runs.FirstLongestUnique | diff2.go:173-177 | a window has at most one first-longest run, so the strict comparison settles on one run |
| Runs.FirstLongestEmpty | diff2.go:155-157 | an empty first-longest run sits at the window's corner, where bestI and bestJ start |
| Runs.FirstLongestFixed | diff2.go:182-191 | a first-longest run cannot be stretched inside its window |
| Runs.RunLenIsRun | diff2.go:170-176 | a length k ending at (i, j) names the genuine run (i-k+1, j-k+1, k) inside the window |
| Runs.RunLenOfRun | diff2.go:159-179 | every non-empty run of the window is seen at its last cell with at least its length |
| Runs.ScanComplete | diff2.go:159-181 | once every row is scanned the best run is the first longest of the window and not extendable |
| Runs.ScanRest | diff2.go:159-181 | every valid window has a first longest run: scanning its remaining cells from any valid scan state reaches one |
| Runs.FirstLongest | diff2.go:159-181 | names the window's first longest run: no run in it is longer, and none of the same length starts earlier in scan order |
| Runs.GapHasNoRuns | diff2.go:163-169 | when every position of the element is listed, columns between consecutive anchors end no run in the row |
| Runs.RowScanVisit | diff2.go:170-177 | visiting an anchor records at j the length of the run ending at (i, j) and keeps the best run the first longest so far |
| Runs.RowScanVisitSound | diff2.go:170-177 | the length recorded at j names a genuine run inside the window, and the updated best run stays inside it |
| Runs.RowScanVisitExact | diff2.go:163-177 | the length recorded at j is the exact length of the run ending at (i, j), and the updated best run is the first longest of the cells scanned so far |
| Runs.RowScanEnd | diff2.go:167-180 | when the anchors run out or leave the window, the new map becomes the previous-row map of the next row |
| Runs.MaskedRun | diff2.go:161-172 | a run of the masked view is a genuine run of the keys whose B elements are all still indexed |
| Runs.FullMask | diff2.go:161 | with a complete index the masked view has the same first longest runs as the keys |
| Runs.AnchorsOf | diff2.go:161-162 | when every kept key lists all its positions, the list looked up for A[i] is the anchor list of row i in the masked view |
| Runs.ExtendFront | diff2.go:182-186 | an agreeing pair just before a run extends it to a genuine run |
| Runs.ExtendBack | diff2.go:188-190 | an agreeing pair just after a run extends it to a genuine run |
| Runs.Backward | diff2.go:182-187 | stretching backwards stays on the run's diagonal with the same end, and stops on a genuine run whose previous pair is outside the window or disagrees |
| Runs.Forward | diff2.go:188-191 | stretching forwards keeps the start and does not shrink, and stops on a genuine run whose next pair is outside the window or disagrees |
| Runs.StretchFixed | diff2.go:182-191 | a run that cannot be extended comes back from both loops unchanged |
| Runs.StretchBoth | diff2.go:182-191 | both loops give a non-extendable run on the input's diagonal that contains the input; an empty result is the input itself |
| Runs.LongestIn | diff2.go:150-193 | longestMatch's result is a genuine common run inside the window |
| Runs.LongestInSpec | diff2.go:150-193 | the result cannot be extended inside the window, contains the masked view's first longest run on its diagonal, is at the window's corner when empty, and with a complete index equals the window's first longest run |
| Complete.EmptyLongestNoPair | diff2.go:113 | a window whose first longest run is empty holds no equal pair, so dropping it loses nothing |
| Complete.PendingShadows | diff2.go:105-123 | with a complete index, every equal pair inside a queued window shares a row or column with a run the loop goes on to record |
| Complete.SortedShadows | diff2.go:125 | sorting keeps every such run |
| Complete.CoalesceShadows | diff2.go:126-145 | coalescing keeps every pair covered, since a joined run contains its parts |
| Complete.MatchListShadows | diff2.go:100-148 | with a complete index, every equal pair shares a row or column with a run of the match list |
| Complete.GapsUnshadowed | diff2.go:199-220 | no run of the match list shares a row or column with a cell inside an Insert, Delete or Replace span |
| Complete.GapsHaveNoCommonPair | diff2.go:100-222 | with a complete index, no Insert, Delete or Replace span pairs an element of A with an equal element of B |
| Complete.IdenticalMatches | diff2.go:100-222 | a non-empty sequence against itself gives the match list [(0,0,n), (n,n,0)] and the single span Equal over all of both |
| Complete.OneEqualBlock | diff2.go:74-88 | the one block of a single Equal span over all of A and B holds all of A and all of B |
| Spans.GapTag | diff2.go:200-209 | the gap is Replace when both cursors are behind the run, Delete when only A's is, Insert when only B's is, and Equal (no gap) otherwise |
| Spans.SpansForMatches | diff2.go:195-222 | the cursor loop emits exactly SpansFrom(ms, 0, 0, 0): per run, the gap span unless empty, then the Equal span unless zero-length |
| Spans.SpansTile | diff2.go:195-222 | the spans of a well-formed match list tile A and B from (0,0) to (len A, len B) and are all meaningful |
| Spans.SpansFromTile | diff2.go:199-220 | from run p on, with the cursor not past it, the spans tile the rest of A and B |
| Spans.SpansFromOK | diff2.go:199-220 | from run p on, every span emitted is meaningful |
| Spans.TilesStep | diff2.go:210-218 | the spans of one run move the cursor from (i, j) to the run's end without gap or overlap |
| Spans.EmptySides | diff_test.go:296-308 | with A empty the spans are one Insert of all of B (none when B is empty too); with B empty, one Delete of all of A |
| Spans.OnlySentinel | diff2.go:143-147 | with one side empty the match list is just the sentinel |
| Spans.BlockOf | diff2.go:78-85 | a block carries the span's tag and the slices of A and B it covers, or no items for a range past the end |
| Spans.BlocksForSpans | diff2.go:76-87 | the loop builds one block per span, block p equal to BlockOf(span p) |
| Spans.BlocksOK | diff2.go:77-86 | blocks of meaningful spans are shaped as their tags say, Equal blocks agreeing item by item under the key |
| Spans.BlocksRebuild | diff2.go:74-88 | blocks covering tiling spans concatenate back to the rest of A and of B |
| Spans.ItemsSpellB | structs.go:41-46 | since Items is Aitems only for Delete, and Delete blocks carry no B items, the payloads of the non-Delete blocks spell B |
| Spans.BlocksOfMatches | diff2.go:74-88 | block p covers span p (its tag and exactly its slices); the blocks give back A and B, are shaped by tag, and with an empty side are one Insert or Delete block or none |
| Worked.LongestIs | diff2.go:150-193 | with a complete index, a run shown to be the window's first longest run is what longestMatch returns |
| Worked.PendingOne | diff2.go:105-123 | a single queued window records its run and then its children's runs, or nothing when its run is empty |
| Worked.MatchListOf | diff2.go:125-147 | runs the worklist records already in order go straight to coalescing |
| Worked.Test011Whole | diff_test.go:350-365 | over [1,2,3,4,5,6] and [2,3,5,7] the first longest run of the whole window is (1, 0, 2) |
| Worked.Test011After | diff_test.go:331-348 | in the window after that run, rows 3-5 and columns 2-3, the first longest run is (4, 2, 1) |
| Worked.Test011Last | diff_test.go:331-348 | the window after (4, 2, 1) holds no equal pair, so its run is (5, 3, 0) |
| Worked.Test011WholeRun | diff_test.go:350-365 | with a complete index longestMatch on the whole window returns (1, 0, 2) |
| Worked.Test011AfterRun | diff_test.go:331-348 | with a complete index longestMatch on the second window returns (4, 2, 1) |
| Worked.Test011LastRun | diff_test.go:331-348 | with a complete index longestMatch on the last window returns (5, 3, 0) |
| Worked.Test011Tail | diff_test.go:331-348 | from the second window the worklist records only (4, 2, 1) |
| Worked.Test011Found | diff_test.go:331-348 | the worklist records (1, 0, 2) and then (4, 2, 1) |
| Worked.Test011Runs | diff_test.go:339-341 | for A = [1..6] and B = [2,3,5,7] the three windows give (1,0,2), (4,2,1) and (5,3,0) |
| Worked.Test011MatchList | diff_test.go:331-348 | the match list is [(1,0,2), (4,2,1), (6,4,0)] |
| Worked.Test011Normalized | diff_test.go:331-348 | coalescing (1,0,2), (4,2,1) changes nothing and the sentinel (6,4,0) closes it |
| Worked.Test011SpansOf | diff_test.go:332-338 | those matches give the five expected spans |
| Worked.Test011 | diff_test.go:331-348 | Spans of New([1,2,3,4,5,6], [2,3,5,7]) is exactly Delete 0-1, Equal 1-3/0-2, Delete 3-4, Equal 4-5/2-3, Replace 5-6/3-4 |
| Worked.Test012Covers | diff_test.go:352-358 | blocks covering those five spans hold [1]; [2,3]; [4]; [5]; [6] against [7] |
| Worked.Test012Blocks | diff_test.go:366-373 | the blocks of MatchList([1..6], [2,3,5,7]) are exactly those five |
| Worked.Test012 | diff_test.go:350-374 | longestMatch on the whole window returns (1, 0, 2), and Blocks gives Delete, Equal, Delete, Equal, Replace whose Items are [1], [2,3], [4], [5], [7] |
| Worked.NameKeyWhole | diff_test.go:154-158 | keyed by name, the first longest run of the whole window is (0, 0, 1) ("foo") |
| Worked.NameKeySecond | diff_test.go:154-158 | in the window after "foo", the first longest run is (1, 2, 1) ("bar") |
| Worked.NameKeyThird | diff_test.go:154-158 | in the window after "bar", the first longest run is (3, 3, 1) ("quux") |
| Worked.NameKeyWholeRun | diff_test.go:154-158 | with a complete index longestMatch on the whole window returns (0, 0, 1) |
| Worked.NameKeySecondRun | diff_test.go:154-158 | with a complete index longestMatch on the second window returns (1, 2, 1) |
| Worked.NameKeyThirdRun | diff_test.go:154-158 | with a complete index longestMatch on the third window returns (3, 3, 1) |
| Worked.NameKeyTail | diff_test.go:138-171 | from the second window the worklist records (1, 2, 1) and then (3, 3, 1) |
| Worked.NameKeyFound | diff_test.go:138-171 | the worklist records (0,0,1), (1,2,1) and (3,3,1) in that order |
| Worked.NameKeyRuns | diff_test.go:154-158 | for the two name sequences the three windows give (0,0,1), (1,2,1) and (3,3,1) |
| Worked.NameKeyMatchList | diff_test.go:138-171 | the match list is [(0,0,1), (1,2,1), (3,3,1), (4,4,0)] |
| Worked.NameKeyCoalesceTail | diff_test.go:138-171 | coalescing from "foo" keeps the three runs apart, none being adjacent to the one before |
| Worked.NameKeyNormalized | diff_test.go:138-171 | the normalised list is the three runs and the sentinel (4, 4, 0) |
| Worked.FoldedIntoStart | diff2.go:126-147 | a list whose first run starts at (0, 0) normalises to its coalescing from that run, then the sentinel |
| Worked.NameKeySpans | diff_test.go:138-171 | the spans are Equal, Insert, Equal, Delete, Equal |
| Worked.NameKeySpansOf | diff_test.go:165-170 | those matches give Equal 0-1/0-1, Insert -/1-2, Equal 1-2/2-3, Delete 2-3/-, Equal 3-4/3-4 |
| Worked.NameKeys | diff_test.go:154-158 | the names of a and b are [foo, bar, baz, quux] and [foo, baz, bar, quux] |
| Worked.NameKeyCovers | diff_test.go:165-170 | blocks covering those spans hold the Places printed |
| Worked.NameKeyBlocksOf | diff_test.go:158-159 | the blocks of the keyed diff of the two Place lists are exactly the five printed |
| Worked.NameKeyBlocks | diff_test.go:138-171 | Blocks of NewKeyFn(a, b, name) is exactly = foo, + baz(6,2), = bar, - baz(5,6), = quux, and each block's Items are the Places printed |

## Left out

- The `Version` string embedded from Version.dat (diff2.go:27-28) is packaging metadata.
- The popularity limit `1 + int(math.Floor(float64(length) / 100.0))` is modelled as `1 + length / 100`.
  The two agree for every length below 2^53, where `float64(length)` is exact and the rounded quotient
  cannot reach the next integer. Longer sequences, and floating point in general, are not modelled.
- The external `set` library that collects popular keys is modelled by a Dafny `set`.
- `slices.SortFunc` with `matchCompare` (diff2.go:125, bykey.go:95) is modelled by an insertion sort
  under `matchLess`. `matchCompare` is not part of this model. The sort is specified by "sorted under
  matchLess and a permutation", which is what any correct comparison sort gives. The runs recorded
  are distinct, so every such sort gives the same list.
- `Span.String` (structs.go:105-108) is `fmt` formatting and is not modelled.
- Go slices alias their backing arrays. Blocks here hold `seq` copies of the slices, so aliasing
  between blocks and A or B is not modelled.
- Go's `int` is 64 bits wide. Lengths and positions here are unbounded integers, so overflow is not
  modelled; it would need sequences of about 2^62 elements.
- `BlockKeyFn` has exactly the shape of `Block` and the same `Items`, so both are the one datatype
  `Primitives.Block`.
- `newMatch`, `newQuad`, `newSpan`, `newBlock` and `newBlockKeyFn` only store their arguments. They are
  the datatype constructors.
- `Span` embeds a `Quad` in Go. Here its four fields are flattened into the Span datatype.
- `Primitives.Block.Items` has no contract of its own. What it promises is stated through
  `Spans.ItemsSpellB`, the `Blocks` postconditions and the worked examples.
- DiffKeyFn: keyfn is called afresh on each element inside the loops of longestMatch. Here the keys are
  computed once (`ByKey.Keys`) and the shared search runs over them. A Dafny function is pure, so both
  give the same keys.
- The search is split into several methods: `AnchorsFor`, `VisitAnchor`, `ScanRow`, `ScanRows`,
  `Stretch`, `StretchBefore`, `StretchAfter`, `FindRuns`, `WorklistStep`, `PushChildren` and
  `CoalesceSorted`. `DropPopular` and `BlocksForSpans` are also split out. Each is one loop, or one
  loop body, of longestMatch, matches, chainBseq or Blocks. Together they execute the same statements
  in the same order.
- Search.Matches: it does not claim that no two consecutive entries meet end to start when the last run
  ends at (len A, len B). That run then meets the sentinel: A = B = [1] gives [(0,0,1), (1,1,0)]. The
  claim is made for every pair before the sentinel.
- Diff2.Diff.Spans: completeness (no equal pair inside a gap span) and the identity case are claimed
  only for B shorter than 200. With a pruned index a run through a popular element is invisible to
  the row scan, so a gap span can pair equal elements.
- The worked examples cover Test011, Test012 and the name-keyed example. The other whole-pipeline
  examples (Test010 at diff_test.go:310-329 and the other keyed example at diff_test.go:173-194) are
  not worked through.
- The test functions and their printing (diff_test.go) are not modelled.
