# Sort visualiser: the sorting drivers, modelled in Dafny

The sort visualiser animates five comparison sorts over a small board of
integer blocks: bubble sort, selection sort, insertion sort, quicksort
(Lomuto partition, pivot = last slot of the range) and merge sort (two
buffers, ties taken from the left). Every driver in `script.js` mutates the
board in place and, at each comparison and exchange, hands the board to the
renderer and waits.

This project models the drivers and leaves out the drawing. Each driver is a
Dafny method over a board `seq<int>`. It returns the final board and the
trace of primitive events it performed, in order:

- `Compare(i, j, b)`: the test `s[i] > s[j]` on the board yielded `b`;
- `CompareKey(j, key, b)`: the test `s[j] > key` against a lifted key;
- `CompareMerged(x, y, b)`: the test `x <= y` on two buffer heads;
- `Swap(i, j)`: the exchange at the end of `animateSwap`;
- `Write(k, v)`: an overwrite of slot `k`.

`Trace.Replay(a, t)` re-applies a trace to the input board, exchanging and
overwriting slots as the steps say. What it re-checks depends on the kind of
comparison:

- `Compare` reads two slots, and replay re-checks its outcome against the
  board as it stood at that moment.
- `CompareKey` reads one slot. Replay re-checks it against that slot and the
  key the step carries. `InsertionDriver.InsertKey` ties the key to the
  board: every loop test of a round carries the value lifted from slot `i`.
- `CompareMerged` reads no slot: it compares two buffer heads. Replay can only
  re-check its outcome against the two values the step carries.
  `MergeDriver.Merge` ties those values to the board: the compared pairs are
  exactly the successive heads of the buffers copied from `left .. mid` and
  `mid+1 .. right`.

Each driver proves `Replay(a, trace) == Some(r)`: in emission order, the
event stream it hands to the animation is consistent with the board it
leaves.

Layout:

- `blocks.dfy` (`Blocks`): the board, order predicates, the exchange.
- `trace.dfy` (`Trace`): steps, replay, counting.
- One file per driver: `bubble.dfy`, `selection.dfy`, `insertion.dfy`,
  `quick.dfy`, `merge.dfy`.

Ranges are inclusive `left .. right`, as in the source.

Three points where the trace records what the code does rather than what it
draws:

- The trace records every value `merge` writes back, as a `Write` step,
  although `merge` draws none of them.
- It records insertion sort's final loop test `blocks[j] > key`, the one that
  came out false and ended the shift loop, because the code evaluates it. Only
  tests that came out true are drawn.
- `animateSwap` moves values only: the colour array is indexed by slot and
  does not move.

## Model

| member | source | states |
|---|---|---|
| Blocks.SwapAt | script.js:81-83 | the swap trades the values of slots `i` and `j`, leaves every other slot alone and keeps the multiset of values |
| Blocks.SwapTwice | script.js:81-83 | exchanging the same two slots twice restores the board (the swap is its own inverse) |
| Blocks.RangePermutation | script.js:199-263 | for two boards that agree outside a range, the windows are permutations of each other exactly when the whole boards are |
| Blocks.CountPermutation | script.js:199-263 | how many values pass a test depends only on the values, not on the order the drivers leave them in |
| Blocks.SortedPermutationUnique | script.js:265-286 | two ascending permutations of the same board are equal, so whichever driver `visualizeSort` picks, the final board is the same |
| Trace.Apply | script.js:81-83 | replaying one step keeps the board's length, and an accepted comparison leaves the board as it was |
| Trace.ApplyAccepts | script.js:81-83 | a board comparison is accepted exactly when both slots exist and its outcome is the board's; a key comparison exactly when its slot exists and its outcome agrees with the key it carries; a buffered comparison exactly when its outcome agrees with the values it carries; an exchange or write exactly when its slots exist, and then it exchanges, respectively overwrites, just those slots |
| Trace.ReplayPermutes | script.js:81-83 | a trace without writes, which only compares and exchanges, replays to a permutation of the board it started from |
| Trace.ReplayAppend | script.js:115-263 | replaying two traces one after the other replays their concatenation, which is how the recursive drivers' traces compose |
| BubbleDriver.TestNeighbours | script.js:119-125 | one inner step: afterwards `r[j] <= r[j+1]`, slot `j+1` holds the larger of the two values, only slots `j` and `j+1` change, and the values are kept |
| BubbleDriver.MaximumTravels | script.js:118-126 | the largest value of `0 .. j+1` ends in slot `j+1` after the step at `j` |
| BubbleDriver.NeighbourStepsFacts | script.js:119-125 | the step at `j` records exactly one comparison, of slots `(j, j+1)`, and swaps exactly when `blocks[j] > blocks[j+1]` |
| BubbleDriver.BubblePass | script.js:118-126 | a pass up to `limit` carries the largest value of `0 .. limit` into slot `limit`, moves nothing beyond it, compares `(0,1), (1,2), …, (limit-1, limit)` in that order, and swaps only when the comparison came out true |
| BubbleDriver.SuffixGrows | script.js:117-127 | after pass `i` the suffix from `len-1-i` is sorted and no earlier value exceeds it: the suffix is final |
| BubbleDriver.ScheduleLength | script.js:117-118 | the first `p` passes over `n` blocks compare `p*(2n-p-1)/2` pairs |
| BubbleDriver.Round | script.js:117-127 | outer pass `i` turns the facts of the first `i` passes into those of the first `i+1`: a sorted suffix one slot longer that dominates the rest, the replay, the neighbour pairs compared so far and the swaps made only on a true test |
| BubbleDriver.PassesFrom | script.js:117-127 | running the remaining outer passes from pass `i` reaches the facts of all `len` passes |
| BubbleDriver.NoStores | script.js:115-129 | a record in which every exchange follows the true comparison that called for it holds no writes |
| BubbleDriver.BubbleSort | script.js:115-129 | the result is the sorted permutation of the input; it makes exactly `len*(len-1)/2` comparisons, pass by pass on the neighbour pairs, swapping only when `blocks[j] > blocks[j+1]`; empty and one-block boards give no steps |
| SelectionDriver.FindMin | script.js:140-151 | `minIdx` is the first slot holding the minimum of `i .. len-1` (strict test, so a later equal value does not replace it); the board is only read; slot `j` is compared in order |
| SelectionDriver.PlaceMin | script.js:153-161 | the exchange that ends a round trades the values of slots `i` and `minIdx`: slot `i` gets the minimum and slot `minIdx` the old value of slot `i`; every other slot keeps its value, and so does the multiset (when `minIdx == i` nothing changes) |
| SelectionDriver.PrefixGrows | script.js:133-162 | after round `i` the prefix `0 .. i` is sorted and no value of it exceeds any later value |
| SelectionDriver.ScanCountTotal | script.js:133-151 | the scans of all rounds make `n*(n-1)/2` comparisons in all |
| SelectionDriver.RoundRecorded | script.js:153-161 | a round's record holds the scan's comparisons and at most one exchange, never of a slot with itself |
| SelectionDriver.SelectRound | script.js:133-162 | round `i` turns the facts of rounds `0 .. i-1` into those of rounds `0 .. i`: a sorted prefix one slot longer that no later value undercuts, the replay, the comparisons counted so far and at most one exchange per round, never of a slot with itself |
| SelectionDriver.SelectionSort | script.js:131-166 | the result is the sorted permutation of the input, with exactly `len*(len-1)/2` comparisons and at most `len-1` exchanges, none of a slot with itself; empty and one-block boards give no steps |
| InsertionDriver.InsertKey | script.js:171-184 | the key ends in slot `p`; slots `p+1 .. i` get their left neighbours' values, each strictly greater than the key; slots before `p` and after `i` are untouched, and the neighbour left of `p` is at most the key; values are kept and a sorted prefix `0 .. i-1` becomes a sorted prefix `0 .. i`; over a sorted prefix the number of shifts is the number of earlier values above the key; every loop test compares against the key lifted from slot `i` |
| InsertionDriver.ShiftCount | script.js:177-183 | over a sorted prefix, the values the shift loop moves are exactly the earlier values greater than the key |
| InsertionDriver.NoInversionsIffSorted | script.js:168-189 | a board has no inversion (pair of slots `p < q` with `blocks[p] > blocks[q]`) exactly when it is sorted |
| InsertionDriver.RoundCounted | script.js:170-186 | after round `i` the writes so far are the inversions of the first `i+1` input values plus one key write per round |
| InsertionDriver.RoundResult | script.js:170-186 | a board described slot by slot as a round leaves it is a permutation of the board before, and extends a sorted prefix by one slot |
| InsertionDriver.PlaceRecorded | script.js:174-184 | the round ends with the false loop test (absent when the loop ran off the front) and the write of the key into the freed slot |
| InsertionDriver.InsertRound | script.js:170-187 | round `i` turns the facts of the rounds for slots `1 .. i-1` into those for `1 .. i`: a sorted prefix one slot longer, an untouched suffix, the replay, no exchanges, and writes equal to the inversions of the first `i+1` input values plus one key write per round |
| InsertionDriver.InsertionSort | script.js:168-189 | the result is the sorted permutation of the input; values move only by writes, never by exchanges; there is one write per inversion of the input plus one key write per slot after the first; empty and one-block boards give no steps |
| QuickDriver.PartitionScan | script.js:200-211 | after the scan, values of `left .. i` are below the pivot and values of `i+1 .. right-1` are at least it; the pivot has not moved, nothing outside the range moves, and the values are kept; one comparison per slot of `left .. right-1` and one exchange per value found below the pivot |
| QuickDriver.LowerGrows | script.js:207-210 | moving a value below the pivot to the end of the lower region keeps every value of `left .. i` below the pivot and every value of `i+1 .. j` at least the pivot |
| QuickDriver.PivotPlaced | script.js:212-213 | the final exchange puts the pivot between the regions |
| QuickDriver.Partition | script.js:199-214 | the returned `p` lies in `left .. right` and holds the pivot; values left of it in the range are below it, values right of it are at least it, nothing outside the range moves and the values are kept; one comparison per slot of `left .. right-1` and one exchange per value found below the pivot plus the final one; `p - left` is the number of values of `left .. right-1` below the pivot, so `p` is fixed by the values alone |
| QuickDriver.PivotRank | script.js:199-214 | a range split around a placed pivot puts it at `left` plus the number of values of the original range below it |
| QuickDriver.Assembled | script.js:193-195 | two sorted sides around a placed pivot make a sorted range |
| QuickDriver.QuickSort | script.js:191-197 | the range `left .. right` ends sorted as a permutation, nothing outside it moves; with `left >= right` the board is unchanged and no step is taken |
| QuickDriver.QuickSortAll | script.js:191 | with the default bounds the result is the sorted permutation of the input; empty and one-block boards give no steps |
| MergeDriver.MergeBy | script.js:236-262 | the merge of two runs has all their elements, with multiplicity |
| MergeDriver.MergeBySorted | script.js:236-262 | merging two runs sorted by a key gives a run sorted by that key |
| MergeDriver.MergeSortsBoth | script.js:236-262 | merging two ascending runs gives the ascending arrangement of their values together |
| MergeDriver.MergeIsStable | script.js:241-244 | ties go to the left buffer: with values tagged by original slot, the merge orders by value and then by original slot |
| MergeDriver.ValuesOfMerge | script.js:241-247 | merging values tagged by slot and then dropping the tags gives the plain merge of the values |
| MergeDriver.TaggedMergeValues | script.js:225-260 | the tagged merge of `left .. mid` with `mid+1 .. right` carries, in order, exactly the values merge writes back |
| MergeDriver.TaggedMergeStable | script.js:241-244 | when both halves are ascending, their tagged merge is ordered by value and, among equal values, by original slot |
| MergeDriver.HeadPairs | script.js:237-250 | the head pairs of two buffers, one per written value of the first loop; there are none exactly when a buffer is exhausted, and fewer than the values left to write |
| MergeDriver.MergeRound | script.js:237-250 | one pass of the first loop writes the merge's next value, records one comparison of the heads `(leftArray[i], rightArray[j])`, and advances `i` when `leftArray[i] <= rightArray[j]` and `j` otherwise |
| MergeDriver.TakesLeft | script.js:241-243 | when the left head is at most the right head, or the right buffer is empty, the next merged value is the left head |
| MergeDriver.TakesRight | script.js:244-247 | otherwise the next merged value is the right head |
| MergeDriver.CompareHeads | script.js:236-250 | the first loop writes the merge's next values and compares once per value written; it stops when one buffer runs out, and the pairs it compared are exactly the head pairs of the buffers |
| MergeDriver.DrainLeft | script.js:251-255 | the second loop copies what is left of the left buffer as the next values of the merge |
| MergeDriver.DrainRight | script.js:256-260 | the third loop copies what is left of the right buffer |
| MergeDriver.Fill | script.js:236-260 | the three loops together write the merge of the two buffers into `left ..`, one slot at a time in ascending order, with fewer comparisons than values written, of exactly the successive buffer heads |
| MergeDriver.Merge | script.js:225-263 | slots `left .. right` receive the merge of the buffers copied from `left .. mid` and `mid+1 .. right`, which is the stable merge of the slot-tagged halves: a permutation of the range, sorted when both halves were; nothing outside moves; the writes go to `left, left+1, .., right`, each slot once and in ascending order; at most `right-left` comparisons, of exactly the successive buffer heads, and no exchanges |
| MergeDriver.Mid | script.js:218 | `floor((left+right)/2)` splits a range of two or more slots into two non-empty halves, the left one longer by at most one |
| MergeDriver.MergeSort | script.js:216-223 | the range `left .. right` ends sorted as a permutation, nothing outside it moves, values move only by writes; with `left >= right` the board is unchanged and no step is taken |
| MergeDriver.MergeSortAll | script.js:216 | with the default bounds the result is the sorted permutation of the input; empty and one-block boards give no steps |

## Left out

- Drawing (`drawBlock`, `drawBlocks`, the frame loop of `animateSwap`, script.js:14-80): output only. The model keeps just the exchange at script.js:81-83.
- `animateInsertion` (script.js:88-113) only draws frames and does not touch the board, so it has no counterpart. The key's placement is the `Write` after it.
- `sleep` and the `async`/`await` pacing: timing does not change what the drivers compute. The drivers are modelled as ordinary sequential code. One run at a time is assumed; overlapping runs started by `visualizeSort` are not modelled.
- Random board generation (script.js:9, 266) and colours (script.js:12): the board is a parameter.
- `visualizeSort` (script.js:265-286) is plain dispatch. `Blocks.SortedPermutationUnique` covers what it promises: every one of the five named choices ends in the same board. An unknown name (script.js:283-284) runs no driver and leaves the board as generated.
- Condition and label strings (`conditionText`, `conditionResult`, the selection-sort messages): display text only.
- The selection-sort redraws that highlight a new minimum or say that no swap is needed carry no board change. They are not recorded as steps.
- Block values are JavaScript numbers; the model uses unbounded integers. The generator only produces integers 0..99.
