/** The pure helpers of the visualizer's Utils class: speed-to-delay mapping,
    the sortedness check, Fisher-Yates shuffling, input range validation and
    the algorithm information table. */
module Utils {
  import opened SortSpec

  /** Animation delay in milliseconds for a speed setting: 200 - 20 * speed,
      but never below 10. */
  function GetDelayFromSpeed(speed: int): (delay: int)
    ensures delay >= 10
    ensures speed <= 9 ==> delay == 200 - 20 * speed
    ensures speed >= 10 ==> delay == 10
  {
    var linear := 200 - speed * 20;
    if 10 >= linear then 10 else linear
  }

  /** A higher speed setting never gives a longer delay. */
  lemma DelayNonIncreasing(slow: int, fast: int)
    requires slow <= fast
    ensures GetDelayFromSpeed(fast) <= GetDelayFromSpeed(slow)
  {
  }

  /** The linear scan with early exit over adjacent pairs. */
  method IsSorted(a: array<int>) returns (sorted: bool)
    ensures sorted <==> AdjacentSorted(a[..])
    ensures sorted <==> Sorted(a[..])
  {
    AdjacentSortedIffSorted(a[..]);
    var i := 1;
    while i < a.Length
      invariant 1 <= i
      invariant i <= a.Length || a.Length == 0
      invariant forall k :: 1 <= k < i && k < a.Length ==> a[k - 1] <= a[k]
    {
      if a[i] < a[i - 1] {
        return false;
      }
      i := i + 1;
    }
    return true;
  }

  /** A valid draw sequence for shuffling n elements: picks[i] is the index j
      in [0, i] that Math.floor(Math.random() * (i + 1)) yields at step i. */
  predicate ValidPicks(picks: seq<int>, n: int) {
    |picks| == n && forall i :: 0 <= i < n ==> 0 <= picks[i] <= i
  }

  /** Fisher-Yates on a fresh copy, from the last index down to 1. */
  method ShuffleArray(a: array<int>, picks: seq<int>) returns (shuffled: array<int>)
    requires ValidPicks(picks, a.Length)
    ensures fresh(shuffled)
    ensures shuffled.Length == a.Length
    ensures multiset(shuffled[..]) == multiset(a[..])
    ensures a[..] == old(a[..])
  {
    shuffled := new int[a.Length](k reads a => if 0 <= k < a.Length then a[k] else 0);
    assert shuffled[..] == a[..];
    var i := shuffled.Length - 1;
    while i > 0
      invariant -1 <= i < shuffled.Length
      invariant multiset(shuffled[..]) == multiset(a[..])
    {
      var j := picks[i];
      shuffled[i], shuffled[j] := shuffled[j], shuffled[i];
      i := i - 1;
    }
  }

  /** What parseInt gives back: a number, or NaN. String parsing itself is
      not modelled. */
  datatype Parsed = NaN | Number(value: int)

  /** Only the 'number' input kind is accepted, with both bounds inclusive. */
  function ValidateInput(parsed: Parsed, min: int, max: int, kind: string := "number"): (ok: bool)
    ensures ok ==> kind == "number" && parsed.Number?
    ensures kind == "number" && parsed.Number? ==> (ok <==> min <= parsed.value <= max)
  {
    if kind == "number" then
      !parsed.NaN? && parsed.value >= min && parsed.value <= max
    else
      false
  }

  /** Both bounds of a non-empty range are accepted, and the values just
      outside it are not. */
  lemma ValidateInputInclusive(min: int, max: int)
    requires min <= max
    ensures ValidateInput(Number(min), min, max) && ValidateInput(Number(max), min, max)
    ensures !ValidateInput(Number(min - 1), min, max) && !ValidateInput(Number(max + 1), min, max)
  {
  }

  datatype Complexity = Complexity(time: string, space: string, description: string)

  const Complexities: map<string, Complexity> := map[
    "bubble" := Complexity("O(n\U{00B2})", "O(1)",
      "Bubble Sort is a simple sorting algorithm that repeatedly steps through the list, compares adjacent elements and swaps them if they are in the wrong order."),
    "quick" := Complexity("O(n log n)", "O(log n)",
      "Quick Sort is a divide-and-conquer algorithm that picks an element as a pivot and partitions the array around the pivot."),
    "merge" := Complexity("O(n log n)", "O(n)",
      "Merge Sort is a divide-and-conquer algorithm that divides the array into two halves, sorts them separately, and then merges them."),
    "heap" := Complexity("O(n log n)", "O(1)",
      "Heap Sort is a comparison-based sorting algorithm that uses a binary heap data structure."),
    "insertion" := Complexity("O(n\U{00B2})", "O(1)",
      "Insertion Sort builds the final sorted array one item at a time by inserting each element into its correct position."),
    "selection" := Complexity("O(n\U{00B2})", "O(1)",
      "Selection Sort finds the minimum element and places it at the beginning, then repeats for the remaining elements.")
  ]

  /** Table lookup with the bubble entry as the fallback for unknown keys. */
  function GetAlgorithmComplexity(algorithm: string): (info: Complexity)
    ensures algorithm in Complexities ==> info == Complexities[algorithm]
    ensures algorithm !in Complexities ==> info == Complexities["bubble"]
    ensures info.time == (if algorithm in {"quick", "merge", "heap"} then "O(n log n)" else "O(n\U{00B2})")
  {
    if algorithm in Complexities then Complexities[algorithm] else Complexities["bubble"]
  }

  /** The table has exactly the six algorithm keys. */
  lemma ComplexityKeys()
    ensures Complexities.Keys == {"bubble", "quick", "merge", "heap", "insertion", "selection"}
  {
  }
}
