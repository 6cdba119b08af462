/** The sorting procedures of the visualizer and their run control.

    Every `await Utils.delay(..)` of a procedure (an animation delay, or one
    100 ms tick of the pause loop) is a point where the user interface may
    act on the run. The other awaits (`waitIfPaused()` when not paused, and
    the awaited calls of `partition`, `merge`, `heapify` and the recursive
    sorts) resume through the microtask queue before any click handler can
    run, so they are not suspension points. The model reads the user's
    actions from the field `schedule`, one per suspension, and applies them
    with the class's own pause, resume and stop methods. Drawing, sound and
    the delays themselves have no effect on the model; the number of
    completion signals is kept in a ghost counter. */
module Algorithms {
  import opened SortSpec

  /** What the user interface does while a sorting procedure is suspended. */
  datatype UiAction = NoAction | PauseClick | ResumeClick | StopClick

  /** The flags (isRunning, isPaused) after a user action. */
  function AfterAction(act: UiAction, running: bool, paused: bool): (bool, bool) {
    match act
    case NoAction => (running, paused)
    case PauseClick => (running, true)
    case ResumeClick => (running, false)
    case StopClick => (false, false)
  }

  class SortingAlgorithms {
    var isRunning: bool
    var isPaused: bool
    var comparisons: nat
    var swaps: nat
    /** The user actions still to come, one per suspension point. */
    var schedule: seq<UiAction>
    /** How many times a procedure signalled completion (showComplete). */
    ghost var completeSignals: nat

    constructor (ui: seq<UiAction>)
      ensures !isRunning && !isPaused
      ensures comparisons == 0 && swaps == 0
      ensures schedule == ui && completeSignals == 0
    {
      isRunning, isPaused := false, false;
      comparisons, swaps := 0, 0;
      schedule := ui;
      completeSignals := 0;
    }

    /** The run continues: it is running and no stop is still to come. */
    ghost predicate Uninterrupted()
      reads this
    {
      isRunning && StopClick !in schedule
    }

    // -------------------------------------------------------------------------
    // Control methods

    method Start()
      modifies this
      ensures isRunning && !isPaused
      ensures comparisons == old(comparisons) && swaps == old(swaps)
      ensures schedule == old(schedule) && completeSignals == old(completeSignals)
    {
      isRunning := true;
      isPaused := false;
    }

    method Pause()
      modifies this
      ensures isPaused && isRunning == old(isRunning)
      ensures comparisons == old(comparisons) && swaps == old(swaps)
      ensures schedule == old(schedule) && completeSignals == old(completeSignals)
    {
      isPaused := true;
    }

    method Resume()
      modifies this
      ensures !isPaused && isRunning == old(isRunning)
      ensures comparisons == old(comparisons) && swaps == old(swaps)
      ensures schedule == old(schedule) && completeSignals == old(completeSignals)
    {
      isPaused := false;
    }

    method Stop()
      modifies this
      ensures !isRunning && !isPaused
      ensures comparisons == old(comparisons) && swaps == old(swaps)
      ensures schedule == old(schedule) && completeSignals == old(completeSignals)
    {
      isRunning := false;
      isPaused := false;
    }

    method Reset()
      modifies this
      ensures comparisons == 0 && swaps == 0
      ensures isRunning == old(isRunning) && isPaused == old(isPaused)
      ensures schedule == old(schedule) && completeSignals == old(completeSignals)
    {
      comparisons := 0;
      swaps := 0;
    }

    /** One suspension: the next scheduled user action, if any, takes effect. */
    method Suspend()
      modifies this
      ensures schedule == if old(schedule) == [] then [] else old(schedule)[1..]
      ensures (isRunning, isPaused) ==
              if old(schedule) == [] then (old(isRunning), old(isPaused))
              else AfterAction(old(schedule)[0], old(isRunning), old(isPaused))
      ensures comparisons == old(comparisons) && swaps == old(swaps)
      ensures completeSignals == old(completeSignals)
      ensures old(Uninterrupted()) ==> Uninterrupted()
      ensures !old(isRunning) ==> !isRunning
    {
      if schedule != [] {
        match schedule[0] {
          case NoAction =>
          case PauseClick => Pause();
          case ResumeClick => Resume();
          case StopClick => Stop();
        }
        assert old(schedule) == [old(schedule)[0]] + old(schedule)[1..];
        schedule := schedule[1..];
      }
    }

    /** The pause loop: suspends while paused and running. */
    method WaitIfPaused()
      modifies this
      ensures !isPaused || !isRunning || schedule == []
      ensures old(!isPaused || !isRunning) ==>
                isRunning == old(isRunning) && isPaused == old(isPaused) && schedule == old(schedule)
      ensures comparisons == old(comparisons) && swaps == old(swaps)
      ensures completeSignals == old(completeSignals)
      ensures old(Uninterrupted()) ==> Uninterrupted()
      ensures !old(isRunning) ==> !isRunning
    {
      while isPaused && isRunning && schedule != []
        invariant comparisons == old(comparisons) && swaps == old(swaps)
        invariant completeSignals == old(completeSignals)
        invariant old(Uninterrupted()) ==> Uninterrupted()
        invariant !old(isRunning) ==> !isRunning
        invariant old(!isPaused || !isRunning) ==>
                    isRunning == old(isRunning) && isPaused == old(isPaused) && schedule == old(schedule)
        decreases |schedule|
      {
        Suspend();
      }
    }

    /** One counted comparison followed by its animation delay. */
    method CountComparison()
      modifies this
      ensures comparisons == old(comparisons) + 1 && swaps == old(swaps)
      ensures completeSignals == old(completeSignals)
      ensures old(Uninterrupted()) ==> Uninterrupted()
      ensures !old(isRunning) ==> !isRunning
    {
      comparisons := comparisons + 1;
      Suspend();
    }

    /** One counted swap followed by its animation delay. */
    method CountSwap()
      modifies this
      ensures swaps == old(swaps) + 1 && comparisons == old(comparisons)
      ensures completeSignals == old(completeSignals)
      ensures old(Uninterrupted()) ==> Uninterrupted()
      ensures !old(isRunning) ==> !isRunning
    {
      swaps := swaps + 1;
      Suspend();
    }

    // -------------------------------------------------------------------------
    // Bubble sort

    /** Bubble sort of a private copy of `input`; the copy is returned so that
        its final state can be stated, and `input` is left as it was. */
    method BubbleSort(input: array<int>) returns (arr: array<int>)
      modifies this
      ensures fresh(arr) && arr.Length == input.Length
      ensures input[..] == old(input[..])
      ensures multiset(arr[..]) == multiset(input[..])
      ensures completeSignals == old(completeSignals) + 1 ==>
                Sorted(arr[..]) && swaps == Inversions(input[..]) &&
                comparisons == input.Length * (input.Length - 1) / 2
      ensures old(Uninterrupted()) ==> Uninterrupted() && completeSignals == old(completeSignals) + 1
      ensures input.Length <= 1 ==> completeSignals == old(completeSignals) + 1
      ensures !old(isRunning) && input.Length >= 2 ==>
                arr[..] == input[..] && comparisons == 0 && swaps == 0 &&
                completeSignals == old(completeSignals)
      ensures isRunning ==> completeSignals == old(completeSignals) + 1
      ensures completeSignals <= old(completeSignals) + 1
    {
      Reset();
      arr := CopyOf(input);
      var completed := BubbleAll(arr);
      if !completed {
        return;
      }
      completeSignals := completeSignals + 1;
    }

    /** The outer loop of bubble sort, passes i = 0, ..., n - 2, starting from
        cleared counters. */
    method BubbleAll(arr: array<int>) returns (completed: bool)
      requires comparisons == 0 && swaps == 0
      modifies this, arr
      ensures multiset(arr[..]) == multiset(old(arr[..]))
      ensures completed ==>
                Sorted(arr[..]) && swaps == Inversions(old(arr[..])) &&
                comparisons == arr.Length * (arr.Length - 1) / 2
      ensures old(Uninterrupted()) ==> Uninterrupted() && completed
      ensures !old(isRunning) && arr.Length >= 2 ==>
                arr[..] == old(arr[..]) && comparisons == 0 && swaps == 0 && !completed
      ensures arr.Length <= 1 ==> completed
      ensures !completed ==> !isRunning
      ensures completeSignals == old(completeSignals)
    {
      ghost var orig := arr[..];
      var n := arr.Length;
      var i := 0;
      while i < n - 1
        invariant 0 <= i <= n && (i <= n - 1 || i == 0)
        invariant multiset(arr[..]) == multiset(orig)
        invariant BubblePassesDone(arr[..], i)
        invariant comparisons == PassTotal(n, i)
        invariant swaps + Inversions(arr[..]) == Inversions(orig)
        invariant completeSignals == old(completeSignals)
        invariant old(Uninterrupted()) ==> Uninterrupted()
        invariant !old(isRunning) ==> !isRunning
        invariant old(isRunning) || i == 0
        invariant i == 0 ==> arr[..] == orig && swaps == 0
      {
        var stopped := BubblePass(arr, i);
        if stopped {
          return false;
        }
        i := i + 1;
      }
      BubbleFinished(arr[..], i);
      return true;
    }

    /** Pass i of bubble sort: the inner loop over j in [0, n - i - 1).
        `stopped` reports that the loop returned at its running check. */
    method BubblePass(arr: array<int>, i: int) returns (stopped: bool)
      requires 0 <= i < arr.Length - 1
      requires BubblePassesDone(arr[..], i)
      modifies this, arr
      ensures multiset(arr[..]) == old(multiset(arr[..]))
      ensures stopped ==> !isRunning
      ensures !stopped ==> BubblePassesDone(arr[..], i + 1) && comparisons == old(comparisons) + (arr.Length - i - 1)
      ensures stopped ==> comparisons <= old(comparisons) + (arr.Length - i - 1)
      ensures swaps + Inversions(arr[..]) == old(swaps + Inversions(arr[..]))
      ensures completeSignals == old(completeSignals)
      ensures old(Uninterrupted()) ==> Uninterrupted()
      ensures !old(isRunning) ==> stopped && arr[..] == old(arr[..]) && comparisons == old(comparisons) && swaps == old(swaps)
    {
      var n := arr.Length;
      var j := 0;
      ghost var start := arr[..];
      ghost var total := swaps + Inversions(start);
      while j < n - i - 1
        invariant 0 <= j <= n - i - 1
        invariant multiset(arr[..]) == multiset(start)
        invariant BubblePassesDone(arr[..], i) && BubbleRising(arr[..], j)
        invariant comparisons == old(comparisons) + j
        invariant swaps + Inversions(arr[..]) == total
        invariant completeSignals == old(completeSignals)
        invariant old(Uninterrupted()) ==> Uninterrupted()
        invariant !old(isRunning) ==> !isRunning
        invariant old(isRunning) || j == 0
        invariant j == 0 ==> arr[..] == start && swaps == old(swaps)
      {
        if !isRunning {
          return true;
        }
        BubbleCompare(arr, i, j);
        j := j + 1;
      }
      BubblePassEnd(arr[..], i);
      return false;
    }

    /** One step of a pass: wait while paused, compare arr[j] with arr[j+1]
        and swap them when they are out of order. */
    method BubbleCompare(arr: array<int>, i: int, j: int)
      requires 0 <= i && j + 1 < arr.Length - i
      requires BubblePassesDone(arr[..], i) && BubbleRising(arr[..], j)
      modifies this, arr
      ensures BubblePassesDone(arr[..], i) && BubbleRising(arr[..], j + 1)
      ensures multiset(arr[..]) == old(multiset(arr[..]))
      ensures swaps + Inversions(arr[..]) == old(swaps + Inversions(arr[..]))
      ensures comparisons == old(comparisons) + 1
      ensures completeSignals == old(completeSignals)
      ensures old(Uninterrupted()) ==> Uninterrupted()
      ensures !old(isRunning) ==> !isRunning
    {
      ghost var cur := arr[..];
      WaitIfPaused();
      CountComparison();
      BubbleStep(cur, i, j);
      if arr[j] > arr[j + 1] {
        SwapRemovesInversion(cur, j);
        arr[j], arr[j + 1] := arr[j + 1], arr[j];
        assert arr[..] == Swapped(cur, j, j + 1);
        CountSwap();
      }
    }

    // -------------------------------------------------------------------------
    // Quick sort

    /** Quick sort of a[low..high] in place with the last element as pivot.
        The call on the whole array resets the counters first and signals
        completion last, also when the run was stopped. */
    method QuickSort(a: array<int>, low: int, high: int)
      requires 0 <= low <= high + 1 <= a.Length
      modifies this, a
      decreases high - low
      ensures PermutedWithin(old(a[..]), a[..], low, high + 1)
      ensures isRunning ==> SortedRange(a[..], low, high + 1)
      ensures old(Uninterrupted()) ==> Uninterrupted()
      ensures !old(isRunning) ==> !isRunning
      ensures !old(isRunning) ==>
                a[..] == old(a[..]) &&
                if low == 0 && high == a.Length - 1 then comparisons == 0 && swaps == 0
                else comparisons == old(comparisons) && swaps == old(swaps)
      ensures completeSignals ==
                old(completeSignals) + (if low == 0 && high == a.Length - 1 then 1 else 0)
    {
      var whole := low == 0 && high == a.Length - 1;
      if whole {
        Reset();
      }
      if low < high && isRunning {
        ghost var s0 := a[..];
        WaitIfPaused();
        var p := Partition(a, low, high);
        ghost var s1 := a[..];
        QuickSort(a, low, p - 1);
        ghost var s2 := a[..];
        QuickSort(a, p + 1, high);
        QuickSortJoin(s0, s1, s2, a[..], low, p, high);
      }
      if whole {
        completeSignals := completeSignals + 1;
      }
    }

    /** Lomuto partition of a[low..high] around the pivot a[high]. The
        returned index p is where the pivot ends up; a stop during the scan
        returns at once, without the final exchange. */
    method Partition(a: array<int>, low: int, high: int) returns (p: int)
      requires 0 <= low <= high < a.Length
      modifies this, a
      ensures low <= p <= high
      ensures PermutedWithin(old(a[..]), a[..], low, high + 1)
      ensures isRunning ==>
                PartitionedAt(a[..], low, high, p) && a[p] == old(a[high]) &&
                comparisons == old(comparisons) + (high - low) &&
                old(swaps) + 1 <= swaps <= old(swaps) + (p - low) + 1
      ensures old(Uninterrupted()) ==> Uninterrupted()
      ensures comparisons <= old(comparisons) + (high - low)
      ensures swaps <= old(swaps) + (high - low) + 1
      ensures completeSignals == old(completeSignals)
      ensures !old(isRunning) ==> !isRunning
      ensures !old(isRunning) && low < high ==>
                p == low && a[..] == old(a[..]) &&
                comparisons == old(comparisons) && swaps == old(swaps)
    {
      var pivot := a[high];
      var i := low - 1;
      var j := low;
      ghost var start := a[..];
      while j < high
        invariant low <= j <= high && low - 1 <= i < j
        invariant PermutedWithin(start, a[..], low, high + 1)
        invariant Scanned(a[..], low, high, pivot, i, j)
        invariant comparisons == old(comparisons) + (j - low)
        invariant old(swaps) <= swaps <= old(swaps) + (i + 1 - low)
        invariant completeSignals == old(completeSignals)
        invariant old(Uninterrupted()) ==> Uninterrupted()
        invariant !old(isRunning) ==> !isRunning
        invariant old(isRunning) || j == low
        invariant j == low ==> a[..] == start && swaps == old(swaps)
      {
        if !isRunning {
          return i + 1;
        }
        i := PartitionCompare(a, low, high, pivot, i, j);
        j := j + 1;
      }
      p := PartitionFinish(a, low, high, pivot, i);
    }

    /** The exchange after the scan, which moves the pivot to index i + 1. */
    method PartitionFinish(a: array<int>, low: int, high: int, pivot: int, i: int) returns (p: int)
      requires Scanned(a[..], low, high, pivot, i, high)
      modifies this, a
      ensures p == i + 1
      ensures PermutedWithin(old(a[..]), a[..], low, high + 1)
      ensures PartitionedAt(a[..], low, high, p) && a[p] == pivot
      ensures comparisons == old(comparisons) && swaps == old(swaps) + 1
      ensures completeSignals == old(completeSignals)
      ensures old(Uninterrupted()) ==> Uninterrupted()
      ensures !old(isRunning) ==> !isRunning
    {
      ghost var before := a[..];
      a[i + 1], a[high] := a[high], a[i + 1];
      assert a[..] == Swapped(before, i + 1, high);
      PartitionEnd(before, low, high, pivot, i);
      CountSwap();
      p := i + 1;
    }

    /** One step of the partition scan: wait while paused, compare a[j] with
        the pivot and move it into the lower part when it is smaller. */
    method PartitionCompare(a: array<int>, low: int, high: int, pivot: int, i: int, j: int)
      returns (i': int)
      requires 0 <= low <= j < high < a.Length && low - 1 <= i < j
      requires Scanned(a[..], low, high, pivot, i, j)
      modifies this, a
      ensures i <= i' <= i + 1
      ensures PermutedWithin(old(a[..]), a[..], low, high + 1)
      ensures Scanned(a[..], low, high, pivot, i', j + 1)
      ensures comparisons == old(comparisons) + 1
      ensures old(swaps) <= swaps <= old(swaps) + (i' - i)
      ensures completeSignals == old(completeSignals)
      ensures old(Uninterrupted()) ==> Uninterrupted()
      ensures !old(isRunning) ==> !isRunning
    {
      ghost var before := a[..];
      WaitIfPaused();
      CountComparison();
      PartitionStep(before, low, high, pivot, i, j);
      i' := i;
      if a[j] < pivot {
        i' := i + 1;
        if i' != j {
          a[i'], a[j] := a[j], a[i'];
          assert a[..] == Swapped(before, i', j);
          CountSwap();
        }
      }
    }

    // -------------------------------------------------------------------------
    // Merge sort

    /** Top-down merge sort of a[left..right], split at floor((left + right) / 2).
        The call on the whole array resets the counters first and signals
        completion last, also when the run was stopped. */
    method MergeSort(a: array<int>, left: int, right: int)
      requires 0 <= left <= right + 1 <= a.Length
      modifies this, a
      decreases right - left
      ensures SameOutside(old(a[..]), a[..], left, right + 1)
      ensures isRunning ==>
                PermutedWithin(old(a[..]), a[..], left, right + 1) &&
                SortedRange(a[..], left, right + 1)
      ensures old(Uninterrupted()) ==> Uninterrupted()
      ensures swaps == if left == 0 && right == a.Length - 1 then 0 else old(swaps)
      ensures !old(isRunning) ==> !isRunning
      ensures !old(isRunning) ==>
                a[..] == old(a[..]) &&
                comparisons == if left == 0 && right == a.Length - 1 then 0 else old(comparisons)
      ensures completeSignals ==
                old(completeSignals) + (if left == 0 && right == a.Length - 1 then 1 else 0)
    {
      var whole := left == 0 && right == a.Length - 1;
      if whole {
        Reset();
      }
      if left < right && isRunning {
        WaitIfPaused();
        ghost var s0 := a[..];
        var middle := (left + right) / 2;
        MergeSort(a, left, middle);
        ghost var s1 := a[..];
        MergeSort(a, middle + 1, right);
        ghost var s2 := a[..];
        ghost var placed := Merge(a, left, middle, right);
        MergeSortJoin(s0, s1, s2, a[..], left, middle, right, placed, isRunning);
      }
      if whole {
        completeSignals := completeSignals + 1;
      }
    }

    /** Merges the sorted runs a[left..middle] and a[middle+1..right] through
        copies of both. A stop ends it at the next running check, leaving the
        `placed` merged elements followed by what was there before. */
    method Merge(a: array<int>, left: int, middle: int, right: int) returns (ghost placed: int)
      requires 0 <= left <= middle < right < a.Length
      modifies this, a
      ensures MergeOutcome(old(a[..]), a[..], left, middle, right, placed)
      ensures isRunning ==> placed == right - left + 1
      ensures old(Uninterrupted()) ==> Uninterrupted()
      ensures comparisons <= old(comparisons) + (right - left) && swaps == old(swaps)
      ensures completeSignals == old(completeSignals)
      ensures !old(isRunning) ==> !isRunning
      ensures !old(isRunning) ==> a[..] == old(a[..]) && comparisons == old(comparisons)
    {
      ghost var orig := a[..];
      var leftArr := a[left..middle + 1];
      var rightArr := a[middle + 1..right + 1];
      assert leftArr == orig[left..middle + 1] && rightArr == orig[middle + 1..right + 1];
      var i, j, stopped := MergeHeads(a, left, middle, right, leftArr, rightArr, orig);
      if !stopped {
        i, j := MergeTails(a, left, middle, right, leftArr, rightArr, orig, i, j);
      }
      placed := i + j;
    }

    /** The first loop of merge: while both runs have elements, compare their
        heads and write the smaller one, the left one on a tie. */
    method MergeHeads(a: array<int>, left: int, middle: int, right: int, L: seq<int>, R: seq<int>,
                      ghost orig: seq<int>) returns (i: int, j: int, stopped: bool)
      requires 0 <= left <= middle < right < a.Length && orig == a[..]
      requires L == orig[left..middle + 1] && R == orig[middle + 1..right + 1]
      modifies this, a
      ensures stopped ==> !isRunning && MergeOutcome(orig, a[..], left, middle, right, i + j)
      ensures stopped && i + j == 0 ==> a[..] == orig
      ensures !stopped ==> MergeProgress(orig, a[..], left, right, L, R, i, j) && (i == |L| || j == |R|)
      ensures comparisons == old(comparisons) + i + j && i + j <= |L| + |R| - 1
      ensures swaps == old(swaps) && completeSignals == old(completeSignals)
      ensures old(Uninterrupted()) ==> !stopped && Uninterrupted()
      ensures !old(isRunning) ==> stopped && i + j == 0 && !isRunning
    {
      MergeStart(orig, left, middle, right);
      i, j := 0, 0;
      while i < |L| && j < |R|
        invariant MergeProgress(orig, a[..], left, right, L, R, i, j)
        decreases |L| + |R| - i - j
        invariant comparisons == old(comparisons) + i + j && i + j <= |L| + |R| - 1
        invariant swaps == old(swaps) && completeSignals == old(completeSignals)
        invariant old(Uninterrupted()) ==> Uninterrupted()
        invariant !old(isRunning) ==> !isRunning
        invariant old(isRunning) || i + j == 0
      {
        if !isRunning {
          MergeStopped(orig, a[..], left, middle, right, L, R, i, j);
          return i, j, true;
        }
        i, j := MergeCompare(a, left, right, L, R, orig, i, j);
      }
      stopped := false;
    }

    /** One step of the first merge loop, with its pause check and delay. */
    method MergeCompare(a: array<int>, left: int, right: int, L: seq<int>, R: seq<int>,
                        ghost orig: seq<int>, i: int, j: int) returns (i': int, j': int)
      requires MergeProgress(orig, a[..], left, right, L, R, i, j) && i < |L| && j < |R|
      modifies this, a
      ensures MergeProgress(orig, a[..], left, right, L, R, i', j')
      ensures i' + j' == i + j + 1
      ensures comparisons == old(comparisons) + 1 && swaps == old(swaps)
      ensures completeSignals == old(completeSignals)
      ensures old(Uninterrupted()) ==> Uninterrupted()
      ensures !old(isRunning) ==> !isRunning
    {
      ghost var before := a[..];
      WaitIfPaused();
      CountComparison();
      var k := left + i + j;
      if L[i] <= R[j] {
        a[k] := L[i];
        MergeTakeLeft(orig, before, a[..], left, right, L, R, i, j);
        i', j' := i + 1, j;
      } else {
        a[k] := R[j];
        MergeTakeRight(orig, before, a[..], left, right, L, R, i, j);
        i', j' := i, j + 1;
      }
    }

    /** The two copying loops of merge, after the head-to-head loop: wherever
        they stop, the range holds a prefix of the merge and then its old
        contents. */
    method MergeTails(a: array<int>, left: int, middle: int, right: int, L: seq<int>, R: seq<int>,
                      ghost orig: seq<int>, i0: int, j0: int) returns (i: int, j: int)
      requires MergeProgress(orig, a[..], left, right, L, R, i0, j0)
      requires left <= middle < right && L == orig[left..middle + 1] && R == orig[middle + 1..right + 1]
      requires i0 == |L| || j0 == |R|
      modifies a
      ensures MergeOutcome(orig, a[..], left, middle, right, i + j)
      ensures isRunning ==> i + j == |L| + |R|
    {
      i, j := MergeCopyRest(a, left, right, L, R, orig, i0, j0);
      MergeStopped(orig, a[..], left, middle, right, L, R, i, j);
    }

    /** The loops of MergeTails; they check for a stop but do not suspend, so
        the flags cannot change during them. */
    method MergeCopyRest(a: array<int>, left: int, right: int, L: seq<int>, R: seq<int>,
                         ghost orig: seq<int>, i0: int, j0: int) returns (i: int, j: int)
      requires MergeProgress(orig, a[..], left, right, L, R, i0, j0)
      requires i0 == |L| || j0 == |R|
      modifies a
      ensures MergeProgress(orig, a[..], left, right, L, R, i, j)
      ensures isRunning ==> i == |L| && j == |R|
    {
      i, j := i0, j0;
      while i < |L|
        invariant MergeProgress(orig, a[..], left, right, L, R, i, j)
        invariant i < |L| ==> j == |R|
      {
        if !isRunning {
          return;
        }
        ghost var before := a[..];
        a[left + i + j] := L[i];
        MergeTakeLeft(orig, before, a[..], left, right, L, R, i, j);
        i := i + 1;
      }
      while j < |R|
        invariant MergeProgress(orig, a[..], left, right, L, R, i, j)
        invariant i == |L|
      {
        if !isRunning {
          return;
        }
        ghost var before := a[..];
        a[left + i + j] := R[j];
        MergeTakeRight(orig, before, a[..], left, right, L, R, i, j);
        j := j + 1;
      }
    }

    // -------------------------------------------------------------------------
    // Heap sort

    /** Heap sort in place: builds a max-heap bottom-up, then repeatedly moves
        the root behind the shrinking heap. Only the extraction loop checks for
        a stop, so the heap is built even when the run is not running. */
    method HeapSort(a: array<int>)
      modifies this, a
      ensures multiset(a[..]) == multiset(old(a[..]))
      ensures completeSignals == old(completeSignals) + 1 ==> Sorted(a[..])
      ensures old(Uninterrupted()) ==> Uninterrupted() && completeSignals == old(completeSignals) + 1
      ensures !old(isRunning) ==>
                IsMaxHeap(a[..], a.Length) && !isRunning &&
                completeSignals == old(completeSignals) + (if a.Length <= 1 then 1 else 0)
      ensures isRunning ==> completeSignals == old(completeSignals) + 1
      ensures completeSignals <= old(completeSignals) + 1
    {
      Reset();
      HeapBuild(a);
      var completed := HeapExtractAll(a);
      if !completed {
        return;
      }
      completeSignals := completeSignals + 1;
    }

    /** The build loop of heap sort, i = n/2 - 1 down to 0, without a stop
        check: afterwards [0, n) is a max-heap. */
    method HeapBuild(a: array<int>)
      modifies this, a
      ensures IsMaxHeap(a[..], a.Length)
      ensures multiset(a[..]) == multiset(old(a[..]))
      ensures completeSignals == old(completeSignals)
      ensures old(Uninterrupted()) ==> Uninterrupted()
      ensures !old(isRunning) ==> !isRunning
    {
      var n := a.Length;
      ghost var orig := a[..];
      var i := n / 2 - 1;
      HeapBuildStart(a[..], n);
      while i >= 0
        invariant -1 <= i <= n / 2 - 1
        invariant HeapOrdered(a[..], n, i + 1)
        invariant multiset(a[..]) == multiset(orig)
        invariant completeSignals == old(completeSignals)
        invariant old(Uninterrupted()) ==> Uninterrupted()
        invariant !old(isRunning) ==> !isRunning
      {
        Heapify(a, n, i, i);
        i := i - 1;
      }
    }

    /** The extraction loop of heap sort, i = n - 1 down to 1, from a max-heap.
        `completed` says that the loop ran to its end. */
    method HeapExtractAll(a: array<int>) returns (completed: bool)
      requires IsMaxHeap(a[..], a.Length)
      modifies this, a
      ensures multiset(a[..]) == multiset(old(a[..]))
      ensures completed ==> Sorted(a[..])
      ensures !completed ==> !isRunning
      ensures old(Uninterrupted()) ==> Uninterrupted() && completed
      ensures !old(isRunning) ==> !isRunning && a[..] == old(a[..]) && (completed <==> a.Length <= 1)
      ensures completeSignals == old(completeSignals)
    {
      var n := a.Length;
      ghost var orig := a[..];
      var i := n - 1;
      while i > 0
        invariant -1 <= i < n && (n > 0 ==> 0 <= i)
        invariant IsMaxHeap(a[..], i + 1)
        invariant SortedRange(a[..], i + 1, n) && PrefixBelow(a[..], i)
        invariant multiset(a[..]) == multiset(orig)
        invariant completeSignals == old(completeSignals)
        invariant old(Uninterrupted()) ==> Uninterrupted()
        invariant !old(isRunning) ==> !isRunning && i == n - 1
        invariant i == n - 1 ==> a[..] == orig
      {
        if !isRunning {
          return false;
        }
        HeapExtract(a, i);
        i := i - 1;
      }
      if n > 0 {
        HeapFinished(a[..]);
      }
      return true;
    }

    /** One round of the extraction loop: wait while paused, swap the root
        with a[i], count the swap and restore the heap on [0, i). */
    method HeapExtract(a: array<int>, i: int)
      requires 0 < i < a.Length
      requires IsMaxHeap(a[..], i + 1)
      requires SortedRange(a[..], i + 1, a.Length) && PrefixBelow(a[..], i)
      modifies this, a
      ensures IsMaxHeap(a[..], i)
      ensures SortedRange(a[..], i, a.Length) && PrefixBelow(a[..], i - 1)
      ensures multiset(a[..]) == old(multiset(a[..]))
      ensures completeSignals == old(completeSignals)
      ensures old(Uninterrupted()) ==> Uninterrupted()
      ensures !old(isRunning) ==> !isRunning
    {
      WaitIfPaused();
      ghost var s0 := a[..];
      a[0], a[i] := a[i], a[0];
      ghost var s1 := a[..];
      HeapExtractStep(s0, s1, i);
      CountSwap();
      Heapify(a, i, 0, 0);
      HeapExtractEnd(s1, a[..], i);
    }

    /** Sift-down of node i within the heap prefix [0, n). It does not check
        for a stop; its only suspension is the delay after a swap. The ghost
        `lo` is the lowest index whose heap order is tracked: the nodes whose
        parent is at lo or above are in order, except below i, and the
        children of i are at most i's parent. */
    method Heapify(a: array<int>, n: int, i: int, ghost lo: int)
      requires 0 <= lo <= i < n <= a.Length
      requires HeapOrderedExcept(a[..], n, lo, i) && ChildrenBelowGrandparent(a[..], n, lo, i)
      modifies this, a
      decreases n - i
      ensures PermutedWithin(old(a[..]), a[..], i, n)
      ensures HeapOrdered(a[..], n, lo)
      ensures comparisons <= old(comparisons) + 2 * Height(n, i)
      ensures swaps < old(swaps) + Height(n, i)
      ensures completeSignals == old(completeSignals)
      ensures old(Uninterrupted()) ==> Uninterrupted()
      ensures !old(isRunning) ==> !isRunning
    {
      var largest := ChooseLargest(a, n, i);
      if largest != i {
        ghost var s0 := a[..];
        a[i], a[largest] := a[largest], a[i];
        HeapifySwap(s0, a[..], n, lo, i, largest);
        ghost var s1 := a[..];
        CountSwap();
        HeightOfChild(n, i, largest);
        Heapify(a, n, largest, lo);
        PermutedWithinNarrower(s0, s1, a[..], i, largest, n);
      } else {
        HeapifyInPlace(a[..], n, lo, i);
      }
    }

    /** The two counted comparisons of heapify: the index of the largest of
        node i and its children in [0, n), preferring i, then the left child. */
    method ChooseLargest(a: array<int>, n: int, i: int) returns (largest: int)
      requires 0 <= i < n <= a.Length
      modifies this
      ensures largest == i || ((largest == 2 * i + 1 || largest == 2 * i + 2) && largest < n && a[i] < a[largest])
      ensures 2 * i + 1 < n ==> a[2 * i + 1] <= a[largest]
      ensures 2 * i + 2 < n ==> a[2 * i + 2] <= a[largest]
      ensures largest == 2 * i + 2 ==> a[2 * i + 1] < a[largest]
      ensures comparisons == old(comparisons) + (if 2 * i + 1 < n then 1 else 0) + (if 2 * i + 2 < n then 1 else 0)
      ensures swaps == old(swaps) && completeSignals == old(completeSignals)
      ensures isRunning == old(isRunning) && isPaused == old(isPaused) && schedule == old(schedule)
    {
      largest := i;
      var left := 2 * i + 1;
      var right := 2 * i + 2;
      if left < n {
        comparisons := comparisons + 1;
        if a[left] > a[largest] {
          largest := left;
        }
      }
      if right < n {
        comparisons := comparisons + 1;
        if a[right] > a[largest] {
          largest := right;
        }
      }
    }


    // -------------------------------------------------------------------------
    // Insertion sort

    /** Insertion sort in place. A stop ends the current insertion at its next
        check; the element being inserted is still written back, so the array
        always keeps its elements. */
    method InsertionSort(a: array<int>)
      modifies this, a
      ensures multiset(a[..]) == multiset(old(a[..]))
      ensures isRunning ==>
                a[..] == InsertionSortBy(Id, old(a[..])) && Sorted(a[..]) &&
                swaps == Inversions(old(a[..]))
      ensures old(Uninterrupted()) ==> Uninterrupted() && completeSignals == old(completeSignals) + 1
      ensures comparisons <= a.Length * (a.Length - 1) / 2
      ensures !old(isRunning) && a.Length >= 2 ==>
                a[..] == old(a[..]) && comparisons == 0 && swaps == 0 &&
                completeSignals == old(completeSignals)
      ensures isRunning ==> completeSignals == old(completeSignals) + 1
      ensures a.Length <= 1 ==> completeSignals == old(completeSignals) + 1
      ensures completeSignals <= old(completeSignals) + 1
    {
      Reset();
      ghost var orig := a[..];
      var completed := InsertAll(a);
      if !completed {
        return;
      }
      if isRunning {
        InsertionDone(orig, a[..]);
      }
      completeSignals := completeSignals + 1;
    }

    /** The outer loop of insertion sort, i = 1, ..., n - 1, starting from
        cleared counters. */
    method InsertAll(a: array<int>) returns (completed: bool)
      requires comparisons == 0 && swaps == 0
      modifies this, a
      ensures multiset(a[..]) == multiset(old(a[..]))
      ensures comparisons <= a.Length * (a.Length - 1) / 2
      ensures isRunning ==>
                (a.Length > 0 ==> InsertedUpTo(old(a[..]), a[..], a.Length)) &&
                swaps == Inversions(old(a[..])) && completed
      ensures old(Uninterrupted()) ==> Uninterrupted() && completed
      ensures !old(isRunning) ==> !isRunning && a[..] == old(a[..]) && comparisons == 0 && swaps == 0
      ensures !old(isRunning) && a.Length >= 2 ==> !completed
      ensures a.Length <= 1 ==> completed
      ensures !completed ==> !isRunning
      ensures completeSignals == old(completeSignals)
    {
      var n := a.Length;
      ghost var orig := a[..];
      if n > 0 {
        InsertionStart(orig);
      }
      var i := 1;
      while i < n
        invariant 1 <= i && (i <= n || i == 1)
        invariant multiset(a[..]) == multiset(orig)
        invariant comparisons <= Triangle(i)
        invariant isRunning ==> n > 0 ==> InsertedUpTo(orig, a[..], i) && swaps == Inversions(orig[..i])
        invariant old(Uninterrupted()) ==> Uninterrupted()
        invariant completeSignals == old(completeSignals)
        invariant !old(isRunning) ==> !isRunning
        invariant old(isRunning) || i == 1
        invariant i == 1 ==> a[..] == orig && comparisons == 0 && swaps == 0
      {
        if !isRunning {
          TriangleBound(i, n);
          return false;
        }
        InsertNext(a, i, orig);
        assert Triangle(i + 1) == Triangle(i) + i;
        i := i + 1;
      }
      if n > 0 {
        TriangleBound(i, n);
        assert orig[..n] == orig;
      } else {
        assert n * (n - 1) / 2 == 0 && Inversions(orig) == 0;
      }
      return true;
    }

    /** One round of the outer loop, as seen by the whole sort: when the
        prefix [0, i) held the insertion sort of the input's first i
        elements, the prefix [0, i + 1) now holds that of the first i + 1. */
    method InsertNext(a: array<int>, i: int, ghost orig: seq<int>)
      requires 1 <= i < a.Length
      modifies this, a
      ensures multiset(a[..]) == old(multiset(a[..]))
      ensures comparisons <= old(comparisons) + i
      ensures isRunning && InsertedUpTo(orig, old(a[..]), i) && old(swaps) == Inversions(orig[..i]) ==>
                InsertedUpTo(orig, a[..], i + 1) && swaps == Inversions(orig[..i + 1])
      ensures old(Uninterrupted()) ==> Uninterrupted()
      ensures completeSignals == old(completeSignals)
      ensures !old(isRunning) ==> !isRunning
    {
      ghost var before := a[..];
      ghost var sorted := InsertedUpTo(orig, before, i);
      if sorted {
        InsertionPrefixSorted(orig, before, i);
      }
      Insert(a, i);
      if sorted && isRunning {
        InsertionOuterStep(orig, before, a[..], i);
      }
    }

    /** One round of the outer loop: take key = a[i] and shift the larger
        elements before it one place up, scanning backwards, until an element
        at most key is met, the front is reached or the run is stopped; then
        write key into the gap. */
    method Insert(a: array<int>, i: int)
      requires 1 <= i < a.Length
      modifies this, a
      ensures SameOutside(old(a[..]), a[..], 0, i + 1)
      ensures multiset(a[..]) == old(multiset(a[..]))
      ensures comparisons <= old(comparisons) + i
      ensures isRunning ==> a[..i + 1] == InsertBy(Id, old(a[..i]), old(a[i]))
      ensures old(Uninterrupted()) ==> Uninterrupted()
      ensures isRunning && Sorted(old(a[..i])) ==>
                swaps == old(swaps) + CountGreater(old(a[..i]), old(a[i]))
      ensures completeSignals == old(completeSignals)
      ensures !old(isRunning) ==> !isRunning
    {
      WaitIfPaused();
      ghost var P := a[..i];
      ghost var rest := a[i + 1..];
      var key := a[i];
      assert a[..] == P + [key] + rest;
      var j := InsertScan(a, i, key, P, rest);
      if j == -1 || P[j] <= key {
        InsertStop(P, j, key);
      }
      ghost var cur := a[..];
      a[j + 1] := key;
      InsertPlace(P, rest, cur, a[..], j, key);
    }

    /** The backward scan of one insertion, from j = i - 1 down: larger
        elements move up until the front, an element at most key, or a stop.
        Returns the index just before the gap. */
    method InsertScan(a: array<int>, i: int, key: int, ghost P: seq<int>, ghost rest: seq<int>)
        returns (j: int)
      requires 1 <= i < a.Length && |P| == i
      requires a[..] == P + [key] + rest
      modifies this, a
      ensures InsertGap(P, rest, a[..], j)
      ensures comparisons <= old(comparisons) + i
      ensures InsertPending(P, key, j)
      ensures isRunning ==> j == -1 || P[j] <= key
      ensures old(Uninterrupted()) ==> Uninterrupted()
      ensures swaps + CountGreater(P[..j + 1], key) == old(swaps) + CountGreater(P, key)
      ensures completeSignals == old(completeSignals)
      ensures !old(isRunning) ==> !isRunning
    {
      j := i - 1;
      InsertScanStart(P, rest, a[..], key);
      while j >= 0 && isRunning
        invariant -1 <= j < i
        invariant InsertGap(P, rest, a[..], j)
        invariant comparisons <= old(comparisons) + (i - 1 - j)
        invariant InsertPending(P, key, j)
        invariant old(Uninterrupted()) ==> Uninterrupted()
        invariant old(swaps) + CountGreater(P, key) == swaps + CountGreater(P[..j + 1], key)
        invariant completeSignals == old(completeSignals)
        invariant !old(isRunning) ==> !isRunning
        decreases j
      {
        var shifted := InsertScanStep(a, i, j, key, P, rest);
        if !shifted {
          break;
        }
        j := j - 1;
      }
    }

    /** One iteration of the backward scan, seen against P: P[j] is compared
        with key and, when larger, fills the gap, which moves down by one. */
    method InsertScanStep(a: array<int>, i: int, j: int, key: int, ghost P: seq<int>, ghost rest: seq<int>)
        returns (shifted: bool)
      requires 0 <= j < i < a.Length && |P| == i
      requires InsertGap(P, rest, a[..], j)
      modifies this, a
      ensures shifted <==> P[j] > key
      ensures shifted ==>
                InsertGap(P, rest, a[..], j - 1) && (InsertPending(P, key, j) ==> InsertPending(P, key, j - 1)) &&
                swaps + CountGreater(P[..j], key) == old(swaps) + CountGreater(P[..j + 1], key)
      ensures !shifted ==> a[..] == old(a[..]) && swaps == old(swaps)
      ensures comparisons == old(comparisons) + 1
      ensures completeSignals == old(completeSignals)
      ensures old(Uninterrupted()) ==> Uninterrupted()
      ensures !old(isRunning) ==> !isRunning
    {
      ghost var cur := a[..];
      InsertFrame(P, rest, cur, j);
      shifted := InsertCompare(a, j, key);
      if shifted {
        InsertShift(P, rest, cur, a[..], j, key);
      }
    }

    /** One step of the backward scan: compare a[j] with key and, when it is
        larger, copy it one place up. */
    method InsertCompare(a: array<int>, j: int, key: int) returns (shifted: bool)
      requires 0 <= j < a.Length - 1
      modifies this, a
      ensures shifted <==> old(a[j]) > key
      ensures a[..] == if shifted then old(a[..])[j + 1 := old(a[j])] else old(a[..])
      ensures comparisons == old(comparisons) + 1
      ensures swaps == old(swaps) + (if shifted then 1 else 0)
      ensures completeSignals == old(completeSignals)
      ensures old(Uninterrupted()) ==> Uninterrupted()
      ensures !old(isRunning) ==> !isRunning
    {
      WaitIfPaused();
      CountComparison();
      if a[j] <= key {
        return false;
      }
      a[j + 1] := a[j];
      CountSwap();
      return true;
    }

    // -------------------------------------------------------------------------
    // Selection sort

    /** Selection sort in place: round i moves a minimum of [i, n) to index i
        with at most one swap. A stop is noticed before each round and before
        each comparison, and leaves the array a rearrangement of its input. */
    method SelectionSort(a: array<int>)
      modifies this, a
      ensures multiset(a[..]) == multiset(old(a[..]))
      ensures completeSignals == old(completeSignals) + 1 ==>
                Sorted(a[..]) && comparisons == a.Length * (a.Length - 1) / 2 &&
                swaps <= (if a.Length == 0 then 0 else a.Length - 1)
      ensures old(Uninterrupted()) ==> Uninterrupted() && completeSignals == old(completeSignals) + 1
      ensures !old(isRunning) && a.Length >= 2 ==>
                a[..] == old(a[..]) && comparisons == 0 && swaps == 0 &&
                completeSignals == old(completeSignals)
      ensures isRunning ==> completeSignals == old(completeSignals) + 1
      ensures a.Length <= 1 ==> completeSignals == old(completeSignals) + 1
      ensures completeSignals <= old(completeSignals) + 1
    {
      Reset();
      var completed := SelectAll(a);
      if !completed {
        return;
      }
      completeSignals := completeSignals + 1;
    }

    /** One outer iteration: the pause check, then a round for place i. */
    method SelectPass(a: array<int>, i: int) returns (stopped: bool)
      requires 0 <= i < a.Length - 1
      modifies this, a
      ensures multiset(a[..]) == multiset(old(a[..]))
      ensures stopped ==> !isRunning
      ensures !stopped && SelectedPrefix(old(a[..]), i) ==>
                SelectedPrefix(a[..], i + 1) &&
                comparisons == old(comparisons) + (a.Length - 1 - i) &&
                swaps == old(swaps) + (if SmallerAfter(old(a[..]), i) then 1 else 0)
      ensures old(Uninterrupted()) ==> !stopped && Uninterrupted()
      ensures completeSignals == old(completeSignals)
    {
      WaitIfPaused();
      ghost var before := a[..];
      stopped := SelectRound(a, i);
      if !stopped && SelectedPrefix(before, i) {
        SelectStep(before, a[..], i);
      }
    }

    /** The outer loop of selection sort, i = 0, ..., n - 2, starting from
        cleared counters. */
    method SelectAll(a: array<int>) returns (completed: bool)
      requires comparisons == 0 && swaps == 0
      modifies this, a
      ensures multiset(a[..]) == multiset(old(a[..]))
      ensures completed ==>
                Sorted(a[..]) && comparisons == a.Length * (a.Length - 1) / 2 &&
                swaps <= (if a.Length == 0 then 0 else a.Length - 1)
      ensures old(Uninterrupted()) ==> Uninterrupted() && completed
      ensures !old(isRunning) && a.Length >= 2 ==>
                a[..] == old(a[..]) && comparisons == 0 && swaps == 0 && !completed
      ensures a.Length <= 1 ==> completed
      ensures !completed ==> !isRunning
      ensures completeSignals == old(completeSignals)
    {
      var n := a.Length;
      ghost var orig := a[..];
      var i := 0;
      while i < n - 1
        invariant 0 <= i && (i <= n - 1 || i == 0)
        invariant multiset(a[..]) == multiset(orig)
        invariant SelectedPrefix(a[..], i) && comparisons == PassTotal(n, i) && swaps <= i
        invariant old(Uninterrupted()) ==> Uninterrupted()
        invariant completeSignals == old(completeSignals)
        invariant !old(isRunning) ==> !isRunning
        invariant old(isRunning) || i == 0
        invariant i == 0 ==> a[..] == orig && comparisons == 0 && swaps == 0
      {
        if !isRunning {
          return false;
        }
        var stopped := SelectPass(a, i);
        if stopped {
          return false;
        }
        i := i + 1;
      }
      SelectFinished(a[..], i);
      return true;
    }

    /** Round i: scan [i + 1, n) for the first index of a minimum of [i, n),
        then exchange it with index i if it is not i. Returns whether a stop
        ended the scan, in which case nothing was exchanged. */
    method SelectRound(a: array<int>, i: int) returns (stopped: bool)
      requires 0 <= i < a.Length - 1
      modifies this, a
      ensures PermutedWithin(old(a[..]), a[..], i, a.Length)
      ensures stopped ==> !isRunning && a[..] == old(a[..])
      ensures !stopped ==>
                (forall k :: i <= k < a.Length ==> a[i] <= a[k]) &&
                comparisons == old(comparisons) + (a.Length - 1 - i) &&
                swaps == old(swaps) + (if SmallerAfter(old(a[..]), i) then 1 else 0)
      ensures !old(isRunning) ==> stopped
      ensures old(Uninterrupted()) ==> !stopped && Uninterrupted()
      ensures completeSignals == old(completeSignals)
    {
      var minIndex;
      minIndex, stopped := FindMin(a, i);
      if stopped {
        return;
      }
      assert minIndex != i <==> SmallerAfter(a[..], i) by {
        if minIndex != i {
          assert a[minIndex] < a[i];
        }
      }
      if minIndex != i {
        a[i], a[minIndex] := a[minIndex], a[i];
        PermutedWithinSwap(old(a[..]), i, a.Length, i, minIndex);
        CountSwap();
      }
    }

    /** The inner loop of a round: the first index of a minimum of [i, n),
        one counted comparison per index after i, unless a stop comes first. */
    method FindMin(a: array<int>, i: int) returns (minIndex: int, stopped: bool)
      requires 0 <= i < a.Length - 1
      modifies this
      ensures i <= minIndex < a.Length
      ensures !stopped ==> forall k :: i <= k < a.Length ==> a[minIndex] <= a[k]
      ensures !stopped ==> forall k :: i <= k < minIndex ==> a[minIndex] < a[k]
      ensures stopped ==> !isRunning
      ensures !stopped ==> comparisons == old(comparisons) + (a.Length - 1 - i)
      ensures swaps == old(swaps) && completeSignals == old(completeSignals)
      ensures !old(isRunning) ==> stopped
      ensures old(Uninterrupted()) ==> !stopped && Uninterrupted()
    {
      var n := a.Length;
      minIndex := i;
      var j := i + 1;
      while j < n
        invariant i < j <= n && i <= minIndex < j
        invariant forall k :: i <= k < j ==> a[minIndex] <= a[k]
        invariant forall k :: i <= k < minIndex ==> a[minIndex] < a[k]
        invariant comparisons == old(comparisons) + (j - i - 1) && swaps == old(swaps)
        invariant completeSignals == old(completeSignals)
        invariant old(Uninterrupted()) ==> Uninterrupted()
        invariant !old(isRunning) ==> !isRunning && j == i + 1
      {
        if !isRunning {
          return minIndex, true;
        }
        WaitIfPaused();
        CountComparison();
        if a[j] < a[minIndex] {
          minIndex := j;
        }
        j := j + 1;
      }
      return minIndex, false;
    }
  }

  /** A fresh copy of an array, as the spread [...array] makes. */
  method CopyOf(a: array<int>) returns (b: array<int>)
    ensures fresh(b) && b[..] == a[..]
  {
    b := new int[a.Length](k reads a => if 0 <= k < a.Length then a[k] else 0);
    assert b[..] == a[..];
  }

  // ---------------------------------------------------------------------------
  // Proof steps of bubble sort

  /** After i passes the last i positions hold the i largest elements in order. */
  ghost predicate BubblePassesDone(s: seq<int>, i: int) {
    0 <= i <= |s| &&
    (forall x, y :: |s| - i <= x < y < |s| ==> s[x] <= s[y]) &&
    (forall x, y :: 0 <= x < |s| - i <= y < |s| ==> s[x] <= s[y])
  }

  /** During a pass, position j holds the largest element seen so far. */
  ghost predicate BubbleRising(s: seq<int>, j: int) {
    0 <= j < |s| && forall x :: 0 <= x <= j ==> s[x] <= s[j]
  }

  /** One compare-and-swap of neighbours j, j+1 carries the largest element along. */
  lemma BubbleStep(s: seq<int>, i: int, j: int)
    requires BubblePassesDone(s, i) && BubbleRising(s, j) && j + 1 < |s| - i
    ensures var t := if s[j] > s[j + 1] then Swapped(s, j, j + 1) else s;
            BubblePassesDone(t, i) && BubbleRising(t, j + 1)
  {
  }

  /** A finished pass places the largest remaining element before the sorted tail. */
  lemma BubblePassEnd(s: seq<int>, i: int)
    requires BubblePassesDone(s, i) && i < |s| && BubbleRising(s, |s| - i - 1)
    ensures BubblePassesDone(s, i + 1)
  {
  }

  /** After the last pass the copy is sorted, so it has no inversion left,
      and n - 1 passes made n(n-1)/2 comparisons. */
  lemma BubbleFinished(s: seq<int>, i: int)
    requires BubblePassesDone(s, i) && i >= |s| - 1 && (i <= |s| - 1 || i == 0)
    ensures Sorted(s) && Inversions(s) == 0
    ensures PassTotal(|s|, i) == |s| * (|s| - 1) / 2
  {
    if |s| >= 1 {
      AllPassesTotal(|s|);
    }
    InversionsZeroIffSorted(s);
  }

  // ---------------------------------------------------------------------------
  // Proof steps of quick sort

  /** The partition followed by sorting both sides sorts the whole range. */
  lemma QuickSortJoin(s0: seq<int>, s1: seq<int>, s2: seq<int>, s3: seq<int>, low: int, p: int, high: int)
    requires 0 <= low <= p <= high < |s0|
    requires PermutedWithin(s0, s1, low, high + 1)
    requires PermutedWithin(s1, s2, low, p) && PermutedWithin(s2, s3, p + 1, high + 1)
    ensures PermutedWithin(s0, s3, low, high + 1)
    ensures PartitionedAt(s1, low, high, p) &&
            SortedRange(s2, low, p) && SortedRange(s3, p + 1, high + 1) ==>
              SortedRange(s3, low, high + 1)
  {
    var pivot := s1[p];
    if (forall k :: low <= k < p ==> s1[k] < pivot) &&
       (forall k :: p < k <= high ==> pivot <= s1[k])
    {
      PermutedWithinKeeps(s1, s2, low, p, x => x < pivot);
      assert s2[p + 1..] == s1[p + 1..];
      assert forall k :: p + 1 <= k < high + 1 ==> s2[k] == s1[p + 1..][k - (p + 1)];
      PermutedWithinKeeps(s2, s3, p + 1, high + 1, x => pivot <= x);
      assert s3[..p + 1] == s2[..p + 1];
      assert forall k :: low <= k <= p ==> s3[k] == s2[..p + 1][k];
    }
  }

  /** During the scan: a[low..i] is below the pivot, a(i..j) is not, and the
      pivot is still at high. */
  ghost predicate Scanned(s: seq<int>, low: int, high: int, pivot: int, i: int, j: int) {
    0 <= low && low - 1 <= i < j <= high < |s| && s[high] == pivot &&
    (forall k :: low <= k <= i ==> s[k] < pivot) &&
    (forall k :: i < k < j ==> pivot <= s[k])
  }

  /** The range [low, high] is split at p: smaller elements before it, the
      others after it. */
  ghost predicate PartitionedAt(s: seq<int>, low: int, high: int, p: int) {
    0 <= low <= p <= high < |s| &&
    (forall k :: low <= k < p ==> s[k] < s[p]) &&
    (forall k :: p < k <= high ==> s[p] <= s[k])
  }

  /** One comparison of the scan, with or without its exchange. */
  lemma PartitionStep(s: seq<int>, low: int, high: int, pivot: int, i: int, j: int)
    requires Scanned(s, low, high, pivot, i, j) && j < high
    ensures var t := if s[j] < pivot && i + 1 != j then Swapped(s, i + 1, j) else s;
            var i' := if s[j] < pivot then i + 1 else i;
            Scanned(t, low, high, pivot, i', j + 1) && PermutedWithin(s, t, low, high + 1)
  {
    if s[j] < pivot && i + 1 != j {
      PermutedWithinSwap(s, low, high + 1, i + 1, j);
    }
  }

  /** The final exchange puts the pivot between the two parts. */
  lemma PartitionEnd(s: seq<int>, low: int, high: int, pivot: int, i: int)
    requires Scanned(s, low, high, pivot, i, high)
    ensures PermutedWithin(s, Swapped(s, i + 1, high), low, high + 1)
    ensures PartitionedAt(Swapped(s, i + 1, high), low, high, i + 1)
    ensures Swapped(s, i + 1, high)[i + 1] == pivot
  {
    PermutedWithinSwap(s, low, high + 1, i + 1, high);
  }

  // ---------------------------------------------------------------------------
  // Proof steps of merge sort

  /** After i elements of L and j of R are written back from index left on,
      those i + j elements are the first ones of the full merge, and nothing
      else has changed. */
  ghost predicate MergeProgress(orig: seq<int>, cur: seq<int>, left: int, right: int,
                                L: seq<int>, R: seq<int>, i: int, j: int) {
    0 <= left && left + |L| + |R| == right + 1 && right < |orig| &&
    0 <= i <= |L| && 0 <= j <= |R| &&
    SameOutside(orig, cur, left, left + i + j) &&
    cur[left..left + i + j] + MergeBy(Id, L[i..], R[j..]) == MergeBy(Id, L, R)
  }

  /** Writing L[i] next follows the merge when R is used up or L[i] <= R[j]. */
  lemma MergeTakeLeft(orig: seq<int>, cur: seq<int>, cur': seq<int>, left: int, right: int,
                      L: seq<int>, R: seq<int>, i: int, j: int)
    requires MergeProgress(orig, cur, left, right, L, R, i, j) && i < |L|
    requires j == |R| || L[i] <= R[j]
    requires cur' == cur[left + i + j := L[i]]
    ensures MergeProgress(orig, cur', left, right, L, R, i + 1, j)
  {
    var k := left + i + j;
    MergeByNextLeft(Id, L, R, i, j);
    WriteExtends(cur, cur', left, k, L[i]);
    PrefixAdvance(cur[left..k], L[i], MergeBy(Id, L[i + 1..], R[j..]), MergeBy(Id, L, R));
  }

  /** Writing R[j] next follows the merge when L is used up or L[i] > R[j]. */
  lemma MergeTakeRight(orig: seq<int>, cur: seq<int>, cur': seq<int>, left: int, right: int,
                       L: seq<int>, R: seq<int>, i: int, j: int)
    requires MergeProgress(orig, cur, left, right, L, R, i, j) && j < |R|
    requires i == |L| || L[i] > R[j]
    requires cur' == cur[left + i + j := R[j]]
    ensures MergeProgress(orig, cur', left, right, L, R, i, j + 1)
  {
    var k := left + i + j;
    MergeByNextRight(Id, L, R, i, j);
    WriteExtends(cur, cur', left, k, R[j]);
    PrefixAdvance(cur[left..k], R[j], MergeBy(Id, L[i..], R[j + 1..]), MergeBy(Id, L, R));
  }

  /** Writing v at index k extends the written prefix [lo, k) by v. */
  lemma WriteExtends(cur: seq<int>, cur': seq<int>, lo: int, k: int, v: int)
    requires 0 <= lo <= k < |cur| && cur' == cur[k := v]
    ensures cur'[lo..k + 1] == cur[lo..k] + [v]
  {
    assert cur'[lo..k + 1] == cur'[lo..k] + [cur'[k]];
    assert cur'[lo..k] == cur[lo..k];
  }

  /** Moving the head of the remaining merge onto the written prefix. */
  lemma PrefixAdvance(p: seq<int>, x: int, rest: seq<int>, whole: seq<int>)
    requires p + ([x] + rest) == whole
    ensures (p + [x]) + rest == whole
  {
    assert p + ([x] + rest) == (p + [x]) + rest;
  }

  /** What a merge call leaves: the first `placed` elements of the full merge
      of the two runs, then the old contents of the rest of the range. */
  ghost predicate MergeOutcome(orig: seq<int>, cur: seq<int>, left: int, middle: int, right: int,
                               placed: int) {
    0 <= left <= middle < right < |orig| && 0 <= placed <= right - left + 1 &&
    SameOutside(orig, cur, left, right + 1) &&
    cur[left..right + 1] ==
      MergeBy(Id, orig[left..middle + 1], orig[middle + 1..right + 1])[..placed] +
      orig[left + placed..right + 1]
  }

  /** A merge stopped after placing some elements leaves the rest of the
      range as it was, so it need not keep the range's elements: merging the
      runs [2] and [1] and stopping after the first write leaves [1, 1]. */
  lemma MergeStoppedMayDuplicate()
    ensures MergeOutcome([2, 1], [1, 1], 0, 0, 1, 1)
    ensures multiset([1, 1]) != multiset([2, 1])
  {
    var L, R := [2, 1][0..1], [2, 1][1..2];
    assert L == [2] && R == [1];
    assert MergeBy(Id, L, R) == [1] + MergeBy(Id, L, []);
    assert [1, 1][0..2] == [1] + [2, 1][1..2];
    assert 2 in multiset([2, 1]);
  }

  lemma MergeStart(orig: seq<int>, left: int, middle: int, right: int)
    requires 0 <= left <= middle < right < |orig|
    ensures MergeProgress(orig, orig, left, right, orig[left..middle + 1], orig[middle + 1..right + 1], 0, 0)
  {
    assert orig[left..left] == [];
  }

  /** Wherever the merge stops, the range holds a prefix of the full merge
      followed by its old contents; when nothing was placed, nothing changed. */
  lemma MergeStopped(orig: seq<int>, cur: seq<int>, left: int, middle: int, right: int,
                     L: seq<int>, R: seq<int>, i: int, j: int)
    requires MergeProgress(orig, cur, left, right, L, R, i, j)
    requires left <= middle < right && L == orig[left..middle + 1] && R == orig[middle + 1..right + 1]
    ensures MergeOutcome(orig, cur, left, middle, right, i + j)
    ensures i + j == 0 ==> cur == orig
  {
    var k := left + i + j;
    assert cur[left..right + 1] == cur[left..k] + cur[k..right + 1];
    assert cur[k..right + 1] == orig[k..right + 1];
  }

  /** Sorting both halves and merging them sorts the range. */
  lemma MergeSortJoin(s0: seq<int>, s1: seq<int>, s2: seq<int>, s3: seq<int>,
                      left: int, middle: int, right: int, placed: int, go: bool)
    requires 0 <= left <= middle < right < |s0|
    requires SameOutside(s0, s1, left, middle + 1) && SameOutside(s1, s2, middle + 1, right + 1)
    requires MergeOutcome(s2, s3, left, middle, right, placed)
    requires go ==> PermutedWithin(s0, s1, left, middle + 1) && SortedRange(s1, left, middle + 1)
    requires go ==> PermutedWithin(s1, s2, middle + 1, right + 1) && SortedRange(s2, middle + 1, right + 1)
    requires go ==> placed == right - left + 1
    ensures SameOutside(s0, s3, left, right + 1)
    ensures go ==> PermutedWithin(s0, s3, left, right + 1) && SortedRange(s3, left, right + 1)
  {
    if go {
      SortedRangeKept(s1, s2, left, middle + 1, right + 1);
      MergeComplete(s2, s3, left, middle, right);
      MergeOfSortedRuns(s2, s3, left, middle, right);
      PermutedWithinFromRange(s2, s3, left, right + 1);
    }
  }

  /** A sorted range stays sorted while only a later range changes. */
  lemma SortedRangeKept(s: seq<int>, t: seq<int>, lo: int, mid: int, hi: int)
    requires lo <= mid && SameOutside(s, t, mid, hi) && SortedRange(s, lo, mid)
    ensures SortedRange(t, lo, mid)
  {
  }

  /** A merge that was not stopped leaves the whole merge in the range. */
  lemma MergeComplete(s: seq<int>, t: seq<int>, left: int, middle: int, right: int)
    requires MergeOutcome(s, t, left, middle, right, right - left + 1)
    ensures t[left..right + 1] == MergeBy(Id, s[left..middle + 1], s[middle + 1..right + 1])
  {
    var merged := MergeBy(Id, s[left..middle + 1], s[middle + 1..right + 1]);
    assert merged[..right - left + 1] == merged;
    assert s[right + 1..right + 1] == [];
  }

  /** The merge of two sorted runs is sorted and holds their elements. */
  lemma MergeOfSortedRuns(s: seq<int>, t: seq<int>, left: int, middle: int, right: int)
    requires 0 <= left <= middle < right < |s| == |t|
    requires SortedRange(s, left, middle + 1) && SortedRange(s, middle + 1, right + 1)
    requires t[left..right + 1] == MergeBy(Id, s[left..middle + 1], s[middle + 1..right + 1])
    ensures SortedRange(t, left, right + 1)
    ensures multiset(t[left..right + 1]) == multiset(s[left..right + 1])
  {
    SortedRangeToSlice(s, left, middle + 1);
    SortedRangeToSlice(s, middle + 1, right + 1);
    MergeOfSorted(s[left..middle + 1], s[middle + 1..right + 1], t, left, right + 1);
    MergedRunsPermute(s, t, left, middle, right);
  }

  /** On integers, the merge of two sorted sequences is sorted; here it sits
      at t[lo..hi]. */
  lemma MergeOfSorted(L: seq<int>, R: seq<int>, t: seq<int>, lo: int, hi: int)
    requires Sorted(L) && Sorted(R)
    requires 0 <= lo <= hi <= |t| && t[lo..hi] == MergeBy(Id, L, R)
    ensures SortedRange(t, lo, hi)
  {
    SortedByIdIsSorted(L);
    SortedByIdIsSorted(R);
    MergeBySorted(Id, L, R);
    SortedByIdIsSorted(MergeBy(Id, L, R));
    SortedSliceToRange(t, lo, hi);
  }

  /** The merge of two adjacent runs holds the elements of both. */
  lemma MergedRunsPermute(s: seq<int>, t: seq<int>, left: int, middle: int, right: int)
    requires 0 <= left <= middle < right < |s| == |t|
    requires t[left..right + 1] == MergeBy(Id, s[left..middle + 1], s[middle + 1..right + 1])
    ensures multiset(t[left..right + 1]) == multiset(s[left..right + 1])
  {
    SliceConcat(s, left, middle + 1, right + 1);
    MergePermutes(s[left..middle + 1], s[middle + 1..right + 1], s[left..right + 1], t[left..right + 1]);
  }

  lemma MergePermutes(L: seq<int>, R: seq<int>, S: seq<int>, M: seq<int>)
    requires S == L + R && M == MergeBy(Id, L, R)
    ensures multiset(M) == multiset(S)
  {
    MergeByPermutes(Id, L, R);
  }

  /** Adjacent slices concatenate, together with their elements. */
  lemma SliceConcat(s: seq<int>, lo: int, mid: int, hi: int)
    requires 0 <= lo <= mid <= hi <= |s|
    ensures s[lo..hi] == s[lo..mid] + s[mid..hi]
    ensures multiset(s[lo..hi]) == multiset(s[lo..mid]) + multiset(s[mid..hi])
  {
    assert s[lo..hi] == s[lo..mid] + s[mid..hi];
  }


  // ---------------------------------------------------------------------------
  // Proof steps of heap sort

  /** Every element of s[0..i] is at most every element after it. */
  ghost predicate PrefixBelow(s: seq<int>, i: int) {
    forall x, y :: 0 <= x <= i < y < |s| ==> s[x] <= s[y]
  }

  /** The children of i are at most i's parent, when that parent is tracked. */
  ghost predicate ChildrenBelowGrandparent(s: seq<int>, n: int, lo: int, i: int)
    requires n <= |s|
  {
    0 < i && lo <= Parent(i) ==>
      forall c :: 0 < c < n && Parent(c) == i ==> s[c] <= s[Parent(i)]
  }

  /** The children of i are 2i+1 and 2i+2. */
  lemma ParentOfChild(c: int, i: int)
    requires 0 < c && 0 <= i
    ensures Parent(c) == i <==> c == 2 * i + 1 || c == 2 * i + 2
  {
  }

  /** Nodes from n/2 on have no children in [0, n): the leaves are heaps. */
  lemma HeapBuildStart(s: seq<int>, n: int)
    requires n == |s|
    ensures HeapOrdered(s, n, n / 2)
  {
    forall c | 0 < c < n && n / 2 <= Parent(c)
      ensures false
    {
    }
  }

  /** When neither child is larger than i, the heap order holds below lo. */
  lemma HeapifyInPlace(s: seq<int>, n: int, lo: int, i: int)
    requires 0 <= lo <= i < n <= |s|
    requires HeapOrderedExcept(s, n, lo, i)
    requires 2 * i + 1 < n ==> s[2 * i + 1] <= s[i]
    requires 2 * i + 2 < n ==> s[2 * i + 2] <= s[i]
    ensures HeapOrdered(s, n, lo)
  {
    forall c | 0 < c < n && lo <= Parent(c) && Parent(c) == i
      ensures s[c] <= s[Parent(c)]
    {
      ParentOfChild(c, i);
    }
  }

  /** Swapping i with its larger child moves the exception down to the child. */
  lemma HeapifySwap(s: seq<int>, t: seq<int>, n: int, lo: int, i: int, largest: int)
    requires 0 <= lo <= i < n <= |s| && (largest == 2 * i + 1 || largest == 2 * i + 2) && largest < n
    requires HeapOrderedExcept(s, n, lo, i) && ChildrenBelowGrandparent(s, n, lo, i)
    requires s[i] < s[largest]
    requires 2 * i + 1 < n ==> s[2 * i + 1] <= s[largest]
    requires 2 * i + 2 < n ==> s[2 * i + 2] <= s[largest]
    requires t == Swapped(s, i, largest)
    ensures HeapOrderedExcept(t, n, lo, largest) && ChildrenBelowGrandparent(t, n, lo, largest)
    ensures PermutedWithin(s, t, i, n)
  {
    ParentOfChild(largest, i);
    forall c | 0 < c < n && lo <= Parent(c) && Parent(c) != largest
      ensures t[c] <= t[Parent(c)]
    {
      if Parent(c) == i {
        ParentOfChild(c, i);
      }
    }
    forall c | 0 < c < n && Parent(c) == largest
      ensures t[c] <= t[Parent(largest)]
    {
      ParentOfChild(c, largest);
    }
    PermutedWithinSwap(s, i, n, i, largest);
  }

  /** A child's subtree is at least one level lower. */
  lemma HeightOfChild(n: int, i: nat, c: nat)
    requires c == 2 * i + 1 || c == 2 * i + 2
    requires c < n
    ensures Height(n, c) < Height(n, i)
  {
  }

  /** Moving the root behind the heap of size i: the remaining prefix is a
      heap except at the root, and the new element at i is the largest of
      the prefix and at most the sorted suffix. */
  lemma HeapExtractStep(s: seq<int>, t: seq<int>, i: int)
    requires 0 < i < |s| && IsMaxHeap(s, i + 1)
    requires SortedRange(s, i + 1, |s|) && PrefixBelow(s, i)
    requires t == Swapped(s, 0, i)
    ensures HeapOrderedExcept(t, i, 0, 0) && ChildrenBelowGrandparent(t, i, 0, 0)
    ensures SortedRange(t, i, |t|)
    ensures forall x :: 0 <= x < i ==> t[x] <= t[i]
  {
    forall k | 0 <= k < i + 1
      ensures s[k] <= s[0]
    {
      HeapRootIsMax(s, i + 1, k);
    }
  }

  /** Restoring the heap on [0, i) rearranges only that prefix. */
  lemma HeapExtractEnd(t: seq<int>, u: seq<int>, i: int)
    requires 0 < i < |t| && PermutedWithin(t, u, 0, i)
    requires SortedRange(t, i, |t|)
    requires forall x :: 0 <= x < i ==> t[x] <= t[i]
    ensures SortedRange(u, i, |u|) && PrefixBelow(u, i - 1)
  {
    PermutedWithinKeeps(t, u, 0, i, x => x <= t[i]);
  }

  /** An exhausted extraction loop leaves the array sorted. */
  lemma HeapFinished(s: seq<int>)
    requires 0 < |s| && SortedRange(s, 1, |s|) && PrefixBelow(s, 0)
    ensures Sorted(s)
  {
  }

  // ---------------------------------------------------------------------------
  // Insertion sort

  /** During the scan for inserting into P, the array holds P with a gap at
      j + 1 (whatever it holds) and the elements after the gap shifted up. */
  ghost predicate InsertGap(P: seq<int>, rest: seq<int>, cur: seq<int>, j: int) {
    -1 <= j < |P| && |cur| == |P| + 1 + |rest| &&
    cur == P[..j + 1] + [cur[j + 1]] + P[j + 1..] + rest
  }

  /** What remains of inserting key into P is inserting it into P[..j + 1]. */
  ghost predicate InsertPending(P: seq<int>, key: int, j: int)
    requires -1 <= j < |P|
  {
    InsertBy(Id, P, key) == InsertBy(Id, P[..j + 1], key) + P[j + 1..]
  }

  lemma InsertScanStart(P: seq<int>, rest: seq<int>, cur: seq<int>, key: int)
    requires P != [] && cur == P + [key] + rest
    ensures InsertGap(P, rest, cur, |P| - 1) && InsertPending(P, key, |P| - 1)
    ensures CountGreater(P[..|P|], key) == CountGreater(P, key)
  {
    assert P[..|P|] == P && P[|P|..] == [];
  }

  /** During the scan, positions up to j still hold P. */
  lemma InsertFrame(P: seq<int>, rest: seq<int>, cur: seq<int>, j: int)
    requires 0 <= j && InsertGap(P, rest, cur, j)
    ensures cur[j] == P[j]
  {
    assert cur[j] == (P[..j + 1])[j];
  }

  /** Copying P[j] one place up moves the gap down by one. */
  lemma InsertShift(P: seq<int>, rest: seq<int>, cur: seq<int>, cur': seq<int>, j: int, key: int)
    requires 0 <= j && InsertGap(P, rest, cur, j)
    requires P[j] > key && cur' == cur[j + 1 := P[j]]
    ensures InsertGap(P, rest, cur', j - 1)
    ensures InsertPending(P, key, j) ==> InsertPending(P, key, j - 1)
    ensures CountGreater(P[..j + 1], key) == CountGreater(P[..j], key) + 1
  {
    assert P[..j + 1] == P[..j] + [P[j]];
    assert P[j..] == [P[j]] + P[j + 1..];
    assert (P[..j + 1])[..j] == P[..j];
    InitLast(P[..j + 1]);
    assert cur' == P[..j] + [cur'[j]] + P[j..] + rest;
  }

  /** Writing key into the gap at j + 1 gives P with key inserted there. */
  lemma InsertPlace(P: seq<int>, rest: seq<int>, cur: seq<int>, t: seq<int>, j: int, key: int)
    requires InsertGap(P, rest, cur, j)
    requires t == cur[j + 1 := key]
    ensures t[..|P| + 1] == P[..j + 1] + [key] + P[j + 1..] && t[|P| + 1..] == rest
    ensures multiset(t) == multiset(P + [key] + rest)
  {
    var x, y := P[..j + 1], P[j + 1..];
    FillGap(x, cur[j + 1], y, rest, key, t);
    AppendParts(x + [key] + y, rest);
    MultisetMoved(x, key, y, rest);
    assert P == x + y;
  }

  lemma FillGap(x: seq<int>, g: int, y: seq<int>, rest: seq<int>, key: int, t: seq<int>)
    requires t == (x + [g] + y + rest)[|x| := key]
    ensures t == x + [key] + y + rest
  {
  }

  lemma AppendParts(u: seq<int>, v: seq<int>)
    ensures (u + v)[..|u|] == u && (u + v)[|u|..] == v
  {
  }

  lemma MultisetMoved(x: seq<int>, key: int, y: seq<int>, rest: seq<int>)
    ensures multiset(x + [key] + y + rest) == multiset(x + y + [key] + rest)
  {
  }

  /** When the scan stops at the front or at an element at most key, key
      goes right there; in a sorted P nothing before it is above key. */
  lemma InsertStop(P: seq<int>, j: int, key: int)
    requires -1 <= j < |P| && (j == -1 || P[j] <= key)
    ensures InsertBy(Id, P[..j + 1], key) == P[..j + 1] + [key]
    ensures Sorted(P) ==> CountGreater(P[..j + 1], key) == 0
  {
    if j == -1 {
      assert P[..j + 1] == [];
    } else if Sorted(P) {
      CountGreaterZeroIff(P[..j + 1], key);
    }
  }

  /** The prefix [0, i) is the insertion sort of the input's first i
      elements, and the rest is still the input. */
  ghost predicate InsertedUpTo(orig: seq<int>, cur: seq<int>, i: int) {
    1 <= i <= |orig| && cur == InsertionSortBy(Id, orig[..i]) + orig[i..]
  }

  /** Once every element is inserted, the array is the insertion sort of the
      input, and sorted. */
  lemma InsertionDone(orig: seq<int>, cur: seq<int>)
    requires |cur| == |orig| && (|orig| > 0 ==> InsertedUpTo(orig, cur, |orig|))
    ensures cur == InsertionSortBy(Id, orig) && Sorted(cur)
  {
    assert orig[..|orig|] == orig && orig[|orig|..] == [];
    InsertionSortBySorted(Id, orig);
    SortedByIdIsSorted(InsertionSortBy(Id, orig));
  }

  /** Before an insertion the prefix [0, i) is the insertion sort of the
      input's first i elements, and hence sorted. */
  lemma InsertionPrefixSorted(orig: seq<int>, before: seq<int>, i: int)
    requires 1 <= i < |orig|
    requires InsertedUpTo(orig, before, i)
    ensures before[..i] == InsertionSortBy(Id, orig[..i]) && before[i] == orig[i]
    ensures before[i + 1..] == orig[i + 1..]
    ensures Sorted(before[..i])
  {
    InsertionSortBySorted(Id, orig[..i]);
    SortedByIdIsSorted(InsertionSortBy(Id, orig[..i]));
  }

  /** After inserting before[i], the prefix [0, i + 1) is the insertion sort of
      the first i + 1 elements, and the shifts done were its new inversions. */
  lemma InsertionOuterStep(orig: seq<int>, before: seq<int>, after: seq<int>, i: int)
    requires 1 <= i < |orig|
    requires InsertedUpTo(orig, before, i)
    requires SameOutside(before, after, 0, i + 1)
    requires after[..i + 1] == InsertBy(Id, before[..i], before[i])
    ensures InsertedUpTo(orig, after, i + 1)
    ensures Inversions(orig[..i + 1]) == Inversions(orig[..i]) + CountGreater(before[..i], before[i])
  {
    InsertionPrefixSorted(orig, before, i);
    var p := orig[..i + 1];
    assert p[..i] == orig[..i] && p[i] == orig[i];
    assert InsertionSortBy(Id, p) == InsertBy(Id, InsertionSortBy(Id, orig[..i]), orig[i]);
    assert after[i + 1..] == before[i + 1..];
    assert after == after[..i + 1] + after[i + 1..];
    CountGreaterInsertionSort(orig[..i], orig[i]);
  }

  /** A single element is its own insertion sort, with no inversions. */
  lemma InsertionStart(orig: seq<int>)
    requires orig != []
    ensures InsertedUpTo(orig, orig, 1)
    ensures Inversions(orig[..1]) == 0
  {
    var p := orig[..1];
    assert p[..0] == [];
    assert orig == p + orig[1..];
  }

  // ---------------------------------------------------------------------------
  // Selection sort

  /** Some element after index i is smaller than s[i]: the round for place i
      then exchanges. */
  ghost predicate SmallerAfter(s: seq<int>, i: int) {
    0 <= i && exists k :: i < k < |s| && s[k] < s[i]
  }

  /** The first i places hold the i smallest elements in order. */
  ghost predicate SelectedPrefix(s: seq<int>, i: int) {
    SortedRange(s, 0, i) && PrefixBelow(s, i - 1)
  }

  /** After a round: the prefix [0, i + 1) is sorted and at most the rest,
      when [0, i) was before and the round put a minimum of the rest at i. */
  lemma SelectStep(s: seq<int>, t: seq<int>, i: int)
    requires 0 <= i < |s|
    requires SelectedPrefix(s, i)
    requires PermutedWithin(s, t, i, |s|)
    requires forall k :: i <= k < |t| ==> t[i] <= t[k]
    ensures SelectedPrefix(t, i + 1)
  {
    if i > 0 {
      PermutedWithinKeeps(s, t, i, |s|, x => s[i - 1] <= x);
    }
  }

  /** All n - 1 rounds done: the whole array is sorted. */
  lemma SelectFinished(s: seq<int>, i: int)
    requires 0 <= i && (i == |s| - 1 || (i == 0 && |s| <= 1))
    requires SelectedPrefix(s, i)
    ensures Sorted(s) && PassTotal(|s|, i) == |s| * (|s| - 1) / 2
  {
    if |s| > 0 {
      AllPassesTotal(|s|);
    }
  }
}
