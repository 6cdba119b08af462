# Sorting visualizer core in Dafny

This project models the core of a browser-based sorting visualizer:

- the `SortingAlgorithms` class. It has six animated sorting procedures: bubble, Lomuto quick, top-down merge, heap, insertion and selection sort. Each one counts comparisons and swaps, and checks an `isRunning` flag so that the user can stop it.
- the run-control methods `start`, `pause`, `resume`, `stop`, `reset` and `waitIfPaused`.
- five helpers of the `Utils` class: speed-to-delay mapping, the sortedness check, Fisher-Yates shuffling, input range validation and the table of algorithm complexities. The sortedness check and the shuffle are methods over arrays; the others are functions. The shuffle's random draws are a parameter `picks`.

Three modules:

- `SortSpec` (`sortspec.dfy`) holds the reference definitions:
  - sortedness and inversions;
  - the stable merge and the merge sort (`MergeBy`, `MergeSortBy`);
  - the backward insertion and the insertion sort (`InsertBy`, `InsertionSortBy`);
  - heap order, and range-restricted permutation.

  It also holds the lemmas about them: permutation, sortedness, stability, uniqueness of a sorted permutation and the comparison totals.
- `Utils` (`utils.dfy`) models `js/utils.js`.
- `Algorithms` (`algorithms.dfy`) models `js/algorithms.js` as a class. The fields `isRunning`, `isPaused`, `comparisons` and `swaps` are updated in place. The procedures work on an `array<int>` in place, with the same loops, early returns and recursion as the source.

How a run can be cancelled:

- Every `await Utils.delay(..)` is a point where the user interface can act: an animation delay, or one 100 ms tick of the pause loop. The other awaits (`waitIfPaused()` when not paused, and the awaited calls of `partition`, `merge`, `heapify` and the recursive sorts) only resume through the microtask queue, which runs before any click handler, so no user action can come between them. The field `schedule` lists the coming user actions (`NoAction`, `PauseClick`, `ResumeClick`, `StopClick`), one per suspension. `Suspend` applies the next action through the class's own `Pause`, `Resume` and `Stop`.
- Every sort states its main promise (sorted, the exact counts) under the weakest hypothesis the source supports. For bubble, heap and selection sort that is completion: whenever `showComplete` is reached, the result is sorted. For quick sort, merge sort, `partition`, `merge` and insertion sort it is that the run is still going when the call returns. `isRunning` never comes back on during a run, so this also covers every earlier step.
- `Uninterrupted()` says that the run is going and that no stop is still to come. It only adds that the run carries on: from an uninterrupted start, the call ends still running and signals completion. Beside this, each sort also states what holds when it is cancelled.
- The ghost counter `completeSignals` counts the calls to `showComplete`.

## Model

| member | source | states |
|---|---|---|
| Algorithms.SortingAlgorithms.constructor | js/algorithms.js:4-11 | a new instance is neither running nor paused, and both counters are zero |
| Algorithms.SortingAlgorithms.Start | js/algorithms.js:383-386 | running and not paused; counters unchanged |
| Algorithms.SortingAlgorithms.Pause | js/algorithms.js:388-390 | paused; `isRunning` untouched, with no guard on it |
| Algorithms.SortingAlgorithms.Resume | js/algorithms.js:392-394 | not paused; `isRunning` untouched |
| Algorithms.SortingAlgorithms.Stop | js/algorithms.js:396-399 | neither running nor paused |
| Algorithms.SortingAlgorithms.Reset | js/algorithms.js:401-405 | both counters zero; the flags untouched |
| Algorithms.SortingAlgorithms.WaitIfPaused | js/algorithms.js:407-411 | on return, the run is not paused, or not running, or no user action is left to end the wait; if it was not paused (or not running) on entry, nothing changes |
| Algorithms.AfterAction | js/algorithms.js:388-399 | the flags after each user action: pause and resume set only the pause flag, stop clears both |
| Algorithms.SortingAlgorithms.Suspend | js/algorithms.js:31 | one `await Utils.delay(..)`: the next scheduled action takes effect; a stopped run stays stopped, and an uninterrupted run stays so |
| Algorithms.SortingAlgorithms.CountComparison | js/algorithms.js:26-31 | a counted comparison and its delay: comparisons + 1 and swaps unchanged |
| Algorithms.SortingAlgorithms.CountSwap | js/algorithms.js:36-42 | a counted swap and its delay: swaps + 1 and comparisons unchanged |
| Algorithms.SortingAlgorithms.BubbleSort | js/algorithms.js:14-55 | the caller's array is left as it was; the private copy is returned. The copy always holds the same elements. Whenever completion is signalled, the copy is sorted, swaps equal the input's inversions and comparisons equal n(n-1)/2. Uninterrupted: the run is still going and completion is signalled once. With n <= 1 the loops do nothing and completion is always signalled. Not running at the start (n >= 2): nothing is compared and completion is not signalled |
| Algorithms.CopyOf | js/algorithms.js:16 | the spread `[...array]`: a freshly allocated array with the same contents as the input |
| Algorithms.SortingAlgorithms.BubbleAll | js/algorithms.js:19-50 | whenever the passes complete, the copy is sorted with swaps equal to its inversions and n(n-1)/2 comparisons; uninterrupted, they complete; a stop ends the sort without completion; with n <= 1 it always completes |
| Algorithms.SortingAlgorithms.BubblePass | js/algorithms.js:19-50 | pass i keeps the elements; swaps + inversions is constant; a full pass makes n-i-1 comparisons and leaves the last i+1 places final |
| Algorithms.SortingAlgorithms.BubbleCompare | js/algorithms.js:21-45 | one step carries the running maximum one place up; swaps + inversions is constant |
| Algorithms.BubbleStep | js/algorithms.js:33-36 | after the compare-and-swap at j, the running maximum is at j + 1 |
| Algorithms.BubbleFinished | js/algorithms.js:19-54 | after n - 1 passes the array is sorted and the comparisons total n(n-1)/2 |
| Algorithms.SortingAlgorithms.QuickSort | js/algorithms.js:58-76 | only [low, high] is rearranged, and its elements are kept. Still running at return: that range is sorted. Uninterrupted: the run is still going. Not running: nothing changes. The top-level call signals completion exactly once, even after a stop |
| Algorithms.QuickSortJoin | js/algorithms.js:65-67 | a partitioned range whose two sides are sorted is sorted |
| Algorithms.SortingAlgorithms.Partition | js/algorithms.js:78-125 | p is in [low, high], and only [low, high] is rearranged. Still running at return: a[p] is the original a[high]; everything left of p is below the pivot and everything right of p is at least the pivot; exactly high-low comparisons; at least one swap (the final pivot exchange) and at most p-low+1, since a scan swap happens only when the lower part grows. A stop before the first comparison returns low and changes nothing |
| Algorithms.SortingAlgorithms.PartitionCompare | js/algorithms.js:85-109 | one scan step keeps the Lomuto invariant: [low, i] is below the pivot and (i, j] is at least the pivot |
| Algorithms.SortingAlgorithms.PartitionFinish | js/algorithms.js:112-124 | the final exchange puts the pivot at i + 1 and is always counted as a swap, even when i + 1 == high |
| Algorithms.PartitionStep | js/algorithms.js:96-108 | the Lomuto invariant survives one step |
| Algorithms.PartitionEnd | js/algorithms.js:112 | the final exchange partitions the range around p |
| Algorithms.SortingAlgorithms.MergeSort | js/algorithms.js:129-149 | nothing outside [left, right] changes. Still running at return: the range is a sorted rearrangement of itself. Uninterrupted: the run is still going. Not running: nothing changes. The top-level call signals completion exactly once, even after a stop |
| Algorithms.MergeSortJoin | js/algorithms.js:138-140 | merging the two sorted halves completely gives a sorted rearrangement of the range |
| Algorithms.SortingAlgorithms.Merge | js/algorithms.js:151-196 | the range becomes the first `placed` elements of the stable merge of the two slices, followed by the rest of the range as it was; still running at return, all of the range is placed; uninterrupted, the run is still going; not running, nothing changes |
| Algorithms.SortingAlgorithms.MergeHeads | js/algorithms.js:156-180 | the two-run loop writes a prefix of the stable merge, taking the left head on a tie |
| Algorithms.SortingAlgorithms.MergeCompare | js/algorithms.js:157-179 | one comparison writes the next element of the stable merge |
| Algorithms.SortingAlgorithms.MergeTails | js/algorithms.js:182-195 | copying the leftover run completes the merge unless stopped |
| Algorithms.SortingAlgorithms.MergeCopyRest | js/algorithms.js:182-195 | each copied element is the next element of the merge |
| Algorithms.MergeTakeLeft | js/algorithms.js:169-171 | writing the left head extends the merged prefix when it is at most the right head |
| Algorithms.MergeTakeRight | js/algorithms.js:172-175 | writing the right head extends the merged prefix when it is below the left head |
| Algorithms.MergeStoppedMayDuplicate | js/algorithms.js:158-191 | a merge stopped part-way may lose an element: merging [2] and [1] and stopping after the first write leaves [1, 1] |
| Algorithms.MergeComplete | js/algorithms.js:151-196 | a complete merge leaves exactly the merge of the two runs in the range |
| Algorithms.MergeOfSortedRuns | js/algorithms.js:151-196 | the merge of two sorted runs is sorted and holds the two runs' elements |
| Algorithms.SortingAlgorithms.HeapSort | js/algorithms.js:200-235 | the array always keeps its elements. Whenever completion is signalled, it is sorted. Uninterrupted: completion is signalled once. Not running: the heap is still built (the build loop does not check the flag), and completion is signalled only when n <= 1 |
| Algorithms.SortingAlgorithms.HeapBuild | js/algorithms.js:203-207 | the build loop, which never checks the flag: the array becomes a max-heap of its own elements, whether or not the run is stopped |
| Algorithms.SortingAlgorithms.HeapExtractAll | js/algorithms.js:209-230 | from a max-heap, the extraction loop keeps the elements; when it completes, the array is sorted; uninterrupted, it completes; a stop ends it without completion, and not running at the start it changes nothing and completes only when n <= 1 |
| Algorithms.SortingAlgorithms.HeapExtract | js/algorithms.js:215-229 | moving the root to place i and sifting down leaves a max-heap on [0, i), a sorted suffix from i, and nothing in the heap above the suffix |
| Algorithms.SortingAlgorithms.Heapify | js/algorithms.js:237-274 | sifting down at i rearranges only [i, n) and restores heap order. It makes at most 2 comparisons per level and fewer swaps than the subtree height. It never checks `isRunning` |
| Algorithms.SortingAlgorithms.ChooseLargest | js/algorithms.js:238-258 | largest is i, or a child inside the heap that is strictly larger than a[i]; both children are at most a[largest]; the right child is chosen only when strictly larger than the left, so ties keep the earlier index; one comparison per existing child, and comparisons never suspend |
| Algorithms.HeapBuildStart | js/algorithms.js:205 | indices from floor(n/2) upward are leaves, so they are heap-ordered |
| Algorithms.HeapifySwap | js/algorithms.js:260-272 | after exchanging i with its larger child, only that child's subtree is out of order |
| Algorithms.HeapifyInPlace | js/algorithms.js:260 | when no child is larger, the subtree at i is heap-ordered |
| Algorithms.HeapExtractStep | js/algorithms.js:216 | exchanging the root with the last heap place extends the sorted suffix |
| Algorithms.HeapExtractEnd | js/algorithms.js:229 | re-heaping [0, i) keeps everything in it below the sorted suffix |
| Algorithms.HeapFinished | js/algorithms.js:210-232 | when extraction ends the array is sorted |
| SortSpec.HeapRootIsMax | js/algorithms.js:216 | the root of a max-heap is its maximum |
| Algorithms.SortingAlgorithms.InsertionSort | js/algorithms.js:277-323 | the array always keeps its elements, even when stopped mid-shift. Still running at the end: the array is the insertion sort of the input, is sorted, and swaps equal the input's inversions. Uninterrupted: completion is signalled. Comparisons are at most n(n-1)/2. With n <= 1 completion is always signalled. Not running (n >= 2): nothing changes and completion is not signalled |
| Algorithms.SortingAlgorithms.InsertAll | js/algorithms.js:281-318 | still running at the end: the array is the insertion sort of the input and swaps equal its inversions, which holds after every round i for the first i + 1 elements; uninterrupted, it completes; with n <= 1 it always completes |
| Algorithms.SortingAlgorithms.InsertNext | js/algorithms.js:281-318 | still running at the end of the round: the insertion-sorted prefix grows by one element, and swaps become the inversions of that longer prefix |
| Algorithms.SortingAlgorithms.Insert | js/algorithms.js:284-317 | still running at the end: the prefix [0, i + 1) becomes a[i] inserted after the last element at most a[i], and, when the prefix is sorted, the shifts count the elements above a[i]; the array keeps its elements even when stopped |
| Algorithms.SortingAlgorithms.InsertScan | js/algorithms.js:287-313 | every shift is of an element above key, so what remains is inserting key into the unscanned part; still running at the end, the scan stopped at the front or at an element at most key (so equal keys are never shifted) |
| Algorithms.SortingAlgorithms.InsertScanStep | js/algorithms.js:292-312 | one iteration of the scan: a shift happens exactly when the scanned element is above key, and it moves the gap down by one and counts one swap |
| Algorithms.SortingAlgorithms.InsertCompare | js/algorithms.js:292-312 | a shift happens (and is counted as a swap) exactly when a[j] > key |
| Algorithms.InsertShift | js/algorithms.js:303-312 | shifting a larger element moves the gap down and counts one element above key |
| Algorithms.InsertStop | js/algorithms.js:301 | stopping at an element at most key places key right after it; in a sorted prefix no element before it is above key |
| Algorithms.InsertPlace | js/algorithms.js:315 | writing key into the gap restores the elements of the range |
| Algorithms.InsertionOuterStep | js/algorithms.js:281-318 | inserting the next element gives the insertion sort of one more element; the shifts are its new inversions |
| Algorithms.InsertionDone | js/algorithms.js:281-318 | after all rounds the array is the insertion sort of the input, and sorted |
| Algorithms.SortingAlgorithms.SelectionSort | js/algorithms.js:326-380 | the array always keeps its elements. Whenever completion is signalled, it is sorted, with exactly n(n-1)/2 comparisons and at most n-1 swaps. Uninterrupted: completion is signalled. With n <= 1 completion is always signalled. Not running (n >= 2): nothing changes and completion is not signalled |
| Algorithms.SortingAlgorithms.SelectAll | js/algorithms.js:330-376 | after every round i that the run survives, the prefix [0, i) is sorted and at most everything after it, with n-1, n-2, ... comparisons per round; whenever the rounds complete, the array is sorted; uninterrupted, they complete; with n <= 1 it always completes |
| Algorithms.SortingAlgorithms.SelectPass | js/algorithms.js:333-375 | one outer iteration keeps the elements and, when not interrupted, grows the sorted prefix of smallest elements by one place whenever the stop flag was not seen at the cost of n-1-i comparisons, and swaps exactly once when some later element is smaller than a[i] (otherwise not at all) |
| Algorithms.SortingAlgorithms.SelectRound | js/algorithms.js:333-371 | round i rearranges only [i, n) and puts a minimum of it at i; it swaps exactly when some later element is strictly smaller than a[i], as the `minIndex !== i` test makes it; a stop during the scan exchanges nothing |
| Algorithms.SortingAlgorithms.FindMin | js/algorithms.js:338-358 | the scan returns the first index of a minimum of [i, n): no earlier index holds an equal value, as the strict `<` test keeps it; exactly n-1-i comparisons |
| Algorithms.SelectStep | js/algorithms.js:360-375 | placing a minimum of the rest at i extends the sorted prefix that is at most the rest |
| Algorithms.SelectFinished | js/algorithms.js:330-376 | after n - 1 rounds the array is sorted and the comparisons total n(n-1)/2 |
| SortSpec.AdjacentSortedIffSorted | js/utils.js:77-84 | no adjacent pair out of order exactly when every pair is in order |
| SortSpec.InversionsZeroIffSorted | js/algorithms.js:33-36 | a sequence has no inversions exactly when it is sorted |
| SortSpec.SwapRemovesInversion | js/algorithms.js:33-36 | exchanging an adjacent pair that is out of order removes exactly one inversion |
| SortSpec.MergeByTakesLeft | js/algorithms.js:169-171 | an unfolding step of the MergeBy definition, used by MergeByStable and the merge proofs: the merge takes the left head when it is at most the right head |
| SortSpec.MergeByTakesRight | js/algorithms.js:172-175 | an unfolding step of the MergeBy definition, used by MergeByStable and the merge proofs: the merge takes the right head when it is smaller |
| SortSpec.MergeByPermutes | js/algorithms.js:151-196 | the merge holds exactly the elements of both runs |
| SortSpec.MergeBySorted | js/algorithms.js:151-196 | the merge of two sorted runs is sorted |
| SortSpec.MergeByStable | js/algorithms.js:169 | with a sorted left run, the elements of each key come out as the left run's ones followed by the right run's ones |
| SortSpec.MergeSortByPermutes | js/algorithms.js:129-149 | merge sort keeps the elements |
| SortSpec.MergeSortBySorted | js/algorithms.js:129-149 | merge sort output is sorted |
| SortSpec.MergeSortByStable | js/algorithms.js:129-149 | merge sort keeps the input order of equal keys |
| SortSpec.SortedPermutationUnique | js/algorithms.js:14-380 | two sorted sequences with the same elements are equal, so all six sorts compute the same result |
| SortSpec.MergeSortIsTheSort | js/algorithms.js:129-149 | any sorted rearrangement of s is the merge sort of s |
| SortSpec.InsertionSortIsMergeSort | js/algorithms.js:277-323 | insertion sort and merge sort compute the same sequence |
| SortSpec.InsertByPermutes | js/algorithms.js:285-315 | an insertion adds exactly the inserted element |
| SortSpec.InsertBySorted | js/algorithms.js:291-315 | inserting into a sorted prefix keeps it sorted |
| SortSpec.InsertByStable | js/algorithms.js:301 | the inserted element goes after the equal keys already in place |
| SortSpec.InsertionSortByPermutes | js/algorithms.js:277-323 | insertion sort keeps the elements |
| SortSpec.InsertionSortBySorted | js/algorithms.js:277-323 | insertion sort output is sorted |
| SortSpec.InsertionSortByStable | js/algorithms.js:277-323 | insertion sort keeps the input order of equal keys |
| SortSpec.CountGreaterInsertionSort | js/algorithms.js:303-306 | sorting the prefix does not change how many of its elements exceed the key, so the shifts of a round are that count |
| SortSpec.AllPassesTotal | js/algorithms.js:19-20 | n - 1 passes of n-1, n-2, ..., 1 comparisons make n(n-1)/2 |
| SortSpec.TriangleBound | js/algorithms.js:281-313 | up to n - 1 insertions make at most n(n-1)/2 comparisons |
| Utils.GetDelayFromSpeed | js/utils.js:27-29 | the delay is at least 10; it is 200 - 20 * speed for speed <= 9 and 10 for speed >= 10 |
| Utils.DelayNonIncreasing | js/utils.js:28 | a higher speed never gives a longer delay |
| Utils.IsSorted | js/utils.js:77-84 | true exactly when no element is below its predecessor, and exactly when the array is sorted in the sense the sorts promise |
| Utils.ShuffleArray | js/utils.js:12-19 | for any choice of j in [0, i] at each step, the result is a new array of the same length with the same elements; the input is unchanged |
| Utils.ValidateInput | js/utils.js:244-250 | true only for the 'number' kind and a number; then true exactly when min <= value <= max |
| Utils.ValidateInputInclusive | js/utils.js:247 | both bounds are accepted and the values just outside them are not |
| Utils.GetAlgorithmComplexity | js/utils.js:87-121 | the entry of a known key, and the bubble entry for any other key; the time bound is O(n log n) exactly for quick, merge and heap |
| Utils.ComplexityKeys | js/utils.js:88-119 | the table has exactly the six algorithm keys |

## Left out

- Drawing, sound and the delays themselves: every `visualizer.*` call, `Utils.playSound` and `Utils.delay` only shows state or waits. A delay is modelled as a suspension point where a user action may take effect, and it has no other effect.
- The asynchronous interleaving is not modelled. User actions happen only at the procedure's `await Utils.delay(..)` points, in the order given by `schedule`. Starting a second procedure while one runs is out of scope.
- Algorithms.SortingAlgorithms.WaitIfPaused: the source spins until some outside action clears the pause. The model returns once no scheduled action is left, because an unbounded wait cannot be expressed.
- `Math.random` in `shuffleArray` becomes the `picks` parameter, which may hold any index in [0, i] at step i. `generateRandomArray` and `getRandomGradient` are random and not modelled.
- `parseInt` inside `validateInput` is not modelled: its result enters as a number or NaN.
- Floating point helpers (`getColorFromValue`, `formatTime`, bar heights) are left out. So are `createBar`, `addAnimationClass`, `createParticleEffect`, `animateNumber`, `startPerformanceMonitor`, storage (`saveToStorage`, `loadFromStorage`), `debounce` and `deepClone`. All of them are browser or timer effects, or dynamic object reflection.
- `getDelayFromSpeed` takes an integer speed. The source accepts any number.
- Utils.GetAlgorithmComplexity: plain JavaScript objects also answer inherited keys such as `constructor`. The model treats every key outside the six as unknown.
- The `steps` field (js/algorithms.js:10) is never read or written by the sorts and is left out.
- Algorithms.SortingAlgorithms.BubbleSort: the source returns nothing and makes its sorted copy visible only through the visualizer. The model returns the copy so that its final state can be stated.
- Algorithms.SortingAlgorithms.MergeSort: its contract states that the range ends as a sorted rearrangement of itself. That this is the merge sort of the input follows from SortSpec.MergeSortIsTheSort.
- Algorithms.SortingAlgorithms.MergeSort: after a stop it promises only that indices outside the range are unchanged. A merge stopped part-way can lose an element, as Algorithms.MergeStoppedMayDuplicate shows. The source does not restore the array after a stop.
- Algorithms.SortingAlgorithms.QuickSort: comparison and swap counts are not stated for quick sort as a whole, because they depend on the pivots. Partition's counts are stated.
- Algorithms.SortingAlgorithms.HeapSort: comparison and swap counts are not stated as totals. Heapify's bounds per call are stated.
- Algorithms.SortingAlgorithms.InsertionSort: comparisons are bounded by n(n-1)/2 rather than given exactly, since the count depends on the input.
- Algorithms.SortingAlgorithms.InsertionSort: sortedness is promised when the run is still going at the end, not whenever completion is signalled. In the source, a stop during the last insertion's scan breaks the scan and writes the key early, and `showComplete` still runs. With [2, 3, 1], a stop at the first delay of the last scan leaves [2, 1, 3] and signals completion.
- Algorithms.SortingAlgorithms.SelectionSort: swaps are bounded by n - 1 rather than given as a total; the exact count per round is stated by SelectRound and SelectPass. On a stop, the sorted prefix built so far is not stated.
