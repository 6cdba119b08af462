/** Specification functions shared by the sorting procedures and the helpers:
    sortedness, inversions, the exact merge and insertion steps the procedures
    perform (stated over an arbitrary integer key, so that stability means
    something), and max-heap order. */
module SortSpec {

  // ---------------------------------------------------------------------------
  // Sortedness

  /** Non-decreasing order: every earlier element is at most every later one. */
  predicate Sorted(s: seq<int>) {
    forall i, j :: 0 <= i < j < |s| ==> s[i] <= s[j]
  }

  /** The local condition: no element is smaller than its predecessor. */
  predicate AdjacentSorted(s: seq<int>) {
    forall i :: 1 <= i < |s| ==> s[i - 1] <= s[i]
  }

  lemma {:induction false} AdjacentChain(s: seq<int>, i: int, j: int)
    requires AdjacentSorted(s)
    requires 0 <= i <= j < |s|
    ensures s[i] <= s[j]
    decreases j - i
  {
    if i < j {
      AdjacentChain(s, i, j - 1);
    }
  }

  /** The local check and the pairwise definition agree. */
  lemma AdjacentSortedIffSorted(s: seq<int>)
    ensures AdjacentSorted(s) <==> Sorted(s)
  {
    if AdjacentSorted(s) {
      forall i, j | 0 <= i < j < |s| ensures s[i] <= s[j] {
        AdjacentChain(s, i, j);
      }
    }
  }

  /** s with the elements at i and j exchanged. */
  function Swapped(s: seq<int>, i: int, j: int): (t: seq<int>)
    requires 0 <= i < |s| && 0 <= j < |s|
    ensures |t| == |s| && t[i] == s[j] && t[j] == s[i]
    ensures forall k :: 0 <= k < |s| && k != i && k != j ==> t[k] == s[k]
    ensures multiset(t) == multiset(s)
  {
    s[i := s[j]][j := s[i]]
  }

  // ---------------------------------------------------------------------------
  // Inversions

  /** Number of elements of s strictly greater than y. */
  function CountGreater(s: seq<int>, y: int): (c: nat)
    ensures c <= |s|
  {
    if s == [] then 0
    else CountGreater(s[..|s| - 1], y) + (if s[|s| - 1] > y then 1 else 0)
  }

  /** Number of pairs i < j with s[i] > s[j], counted by the later element. */
  function Inversions(s: seq<int>): nat {
    if s == [] then 0
    else Inversions(s[..|s| - 1]) + CountGreater(s[..|s| - 1], s[|s| - 1])
  }

  lemma {:induction false} CountGreaterZeroIff(s: seq<int>, y: int)
    ensures CountGreater(s, y) == 0 <==> forall k :: 0 <= k < |s| ==> s[k] <= y
  {
    if s != [] {
      var p := s[..|s| - 1];
      CountGreaterZeroIff(p, y);
      assert forall k :: 0 <= k < |p| ==> p[k] == s[k];
    }
  }

  /** Exchanging two neighbours does not change how many elements exceed y. */
  lemma {:induction false} CountGreaterSwap(s: seq<int>, j: int, y: int)
    requires 0 <= j < |s| - 1
    ensures CountGreater(Swapped(s, j, j + 1), y) == CountGreater(s, y)
  {
    var t := Swapped(s, j, j + 1);
    var p, q := s[..|s| - 1], t[..|t| - 1];
    if j + 1 == |s| - 1 {
      assert p[..|p| - 1] == q[..|q| - 1];
    } else {
      assert q == Swapped(p, j, j + 1);
      CountGreaterSwap(p, j, y);
    }
  }

  /** Exchanging an inverted pair of neighbours removes exactly one inversion. */
  lemma {:induction false} SwapRemovesInversion(s: seq<int>, j: int)
    requires 0 <= j < |s| - 1
    requires s[j] > s[j + 1]
    ensures Inversions(Swapped(s, j, j + 1)) + 1 == Inversions(s)
  {
    var t := Swapped(s, j, j + 1);
    var p, q := s[..|s| - 1], t[..|t| - 1];
    if j + 1 == |s| - 1 {
      var r := p[..|p| - 1];
      assert q[..|q| - 1] == r;
    } else {
      assert q == Swapped(p, j, j + 1);
      SwapRemovesInversion(p, j);
      CountGreaterSwap(p, j, s[|s| - 1]);
    }
  }

  /** A sequence has no inversion exactly when it is sorted. */
  lemma {:induction false} InversionsZeroIffSorted(s: seq<int>)
    ensures Inversions(s) == 0 <==> Sorted(s)
  {
    if s != [] {
      var p, x := s[..|s| - 1], s[|s| - 1];
      InversionsZeroIffSorted(p);
      CountGreaterZeroIff(p, x);
      assert forall k :: 0 <= k < |p| ==> p[k] == s[k];
      if Sorted(s) {
        assert Sorted(p);
      }
    }
  }

  // ---------------------------------------------------------------------------
  // Order by an arbitrary key; the integer procedures use the key Id

  function Id(x: int): int { x }

  predicate SortedBy<T>(key: T -> int, s: seq<T>) {
    forall i, j :: 0 <= i < j < |s| ==> key(s[i]) <= key(s[j])
  }

  lemma SortedByIdIsSorted(s: seq<int>)
    ensures SortedBy(Id, s) <==> Sorted(s)
  {
  }

  /** The elements of s whose key is k, in their order in s. */
  function WithKey<T>(key: T -> int, k: int, s: seq<T>): (r: seq<T>)
    ensures |r| <= |s|
  {
    if s == [] then []
    else WithKey(key, k, s[..|s| - 1]) + (if key(s[|s| - 1]) == k then [s[|s| - 1]] else [])
  }

  lemma {:induction false} WithKeyAppend<T>(key: T -> int, k: int, s: seq<T>, t: seq<T>)
    ensures WithKey(key, k, s + t) == WithKey(key, k, s) + WithKey(key, k, t)
    decreases |t|
  {
    if t == [] {
      assert s + t == s;
    } else {
      var t' := t[..|t| - 1];
      assert (s + t)[..|s + t| - 1] == s + t';
      WithKeyAppend(key, k, s, t');
    }
  }

  lemma {:induction false} WithKeyNone<T>(key: T -> int, k: int, s: seq<T>)
    requires forall i :: 0 <= i < |s| ==> key(s[i]) != k
    ensures WithKey(key, k, s) == []
  {
    if s != [] {
      var p := s[..|s| - 1];
      assert forall i :: 0 <= i < |p| ==> p[i] == s[i];
      WithKeyNone(key, k, p);
    }
  }

  // ---------------------------------------------------------------------------
  // Merge: the head-to-head step of mergeSort, ties taken from the left run

  function MergeBy<T>(key: T -> int, xs: seq<T>, ys: seq<T>): (r: seq<T>)
    ensures |r| == |xs| + |ys|
    decreases |xs| + |ys|
  {
    if xs == [] then ys
    else if ys == [] then xs
    else if key(xs[0]) <= key(ys[0]) then [xs[0]] + MergeBy(key, xs[1..], ys)
    else [ys[0]] + MergeBy(key, xs, ys[1..])
  }

  /** The two recursive cases of MergeBy, as separate facts. */
  lemma MergeByTakesLeft<T>(key: T -> int, xs: seq<T>, ys: seq<T>)
    requires xs != [] && ys != [] && key(xs[0]) <= key(ys[0])
    ensures MergeBy(key, xs, ys) == [xs[0]] + MergeBy(key, xs[1..], ys)
  {
  }

  lemma MergeByTakesRight<T>(key: T -> int, xs: seq<T>, ys: seq<T>)
    requires xs != [] && ys != [] && key(xs[0]) > key(ys[0])
    ensures MergeBy(key, xs, ys) == [ys[0]] + MergeBy(key, xs, ys[1..])
  {
  }

  /** The next element of a merge of two suffixes comes from the left one
      when the right one is used up or its head is not smaller. */
  lemma MergeByNextLeft<T>(key: T -> int, xs: seq<T>, ys: seq<T>, i: int, j: int)
    requires 0 <= i < |xs| && 0 <= j <= |ys|
    requires j == |ys| || key(xs[i]) <= key(ys[j])
    ensures MergeBy(key, xs[i..], ys[j..]) == [xs[i]] + MergeBy(key, xs[i + 1..], ys[j..])
  {
    HeadTail(xs[i..]);
    assert xs[i..][1..] == xs[i + 1..];
    if j < |ys| {
      assert ys[j..][0] == ys[j];
      MergeByTakesLeft(key, xs[i..], ys[j..]);
    } else {
      assert ys[j..] == [];
    }
  }

  /** The next element comes from the right one when the left one is used
      up or its head is larger. */
  lemma MergeByNextRight<T>(key: T -> int, xs: seq<T>, ys: seq<T>, i: int, j: int)
    requires 0 <= i <= |xs| && 0 <= j < |ys|
    requires i == |xs| || key(xs[i]) > key(ys[j])
    ensures MergeBy(key, xs[i..], ys[j..]) == [ys[j]] + MergeBy(key, xs[i..], ys[j + 1..])
  {
    HeadTail(ys[j..]);
    assert ys[j..][1..] == ys[j + 1..];
    if i < |xs| {
      assert xs[i..][0] == xs[i];
      MergeByTakesRight(key, xs[i..], ys[j..]);
    } else {
      assert xs[i..] == [];
    }
  }

  lemma HeadTail<T>(xs: seq<T>)
    requires xs != []
    ensures xs == [xs[0]] + xs[1..]
    ensures multiset(xs) == multiset{xs[0]} + multiset(xs[1..])
  {
    assert xs == [xs[0]] + xs[1..];
  }

  /** multiset(xs) == multiset(xs[..m]) + multiset(xs[m..]). */
  lemma SplitAt<T>(xs: seq<T>, m: int)
    requires 0 <= m <= |xs|
    ensures xs == xs[..m] + xs[m..]
    ensures multiset(xs) == multiset(xs[..m]) + multiset(xs[m..])
  {
    assert xs == xs[..m] + xs[m..];
  }

  lemma {:induction false} MergeByPermutes<T>(key: T -> int, xs: seq<T>, ys: seq<T>)
    ensures multiset(MergeBy(key, xs, ys)) == multiset(xs) + multiset(ys)
    decreases |xs| + |ys|
  {
    if xs == [] {
    } else if ys == [] {
    } else if key(xs[0]) <= key(ys[0]) {
      MergeByTakesLeft(key, xs, ys);
      MergeByPermutes(key, xs[1..], ys);
      HeadTail(xs);
    } else {
      MergeByTakesRight(key, xs, ys);
      MergeByPermutes(key, xs, ys[1..]);
      HeadTail(ys);
    }
  }

  /** Every element of the merge of two runs is at least the smaller head. */
  lemma {:induction false} MergeByLowerBound<T>(key: T -> int, xs: seq<T>, ys: seq<T>, b: int)
    requires forall i :: 0 <= i < |xs| ==> b <= key(xs[i])
    requires forall i :: 0 <= i < |ys| ==> b <= key(ys[i])
    ensures forall i :: 0 <= i < |xs| + |ys| ==> b <= key(MergeBy(key, xs, ys)[i])
  {
    var r := MergeBy(key, xs, ys);
    MergeByPermutes(key, xs, ys);
    forall i | 0 <= i < |r| ensures b <= key(r[i]) {
      assert r[i] in multiset(r);
      if r[i] in multiset(xs) {
        var w :| 0 <= w < |xs| && xs[w] == r[i];
      } else {
        assert r[i] in multiset(ys);
        var w :| 0 <= w < |ys| && ys[w] == r[i];
      }
    }
  }

  lemma {:induction false} MergeBySorted<T>(key: T -> int, xs: seq<T>, ys: seq<T>)
    requires SortedBy(key, xs) && SortedBy(key, ys)
    ensures SortedBy(key, MergeBy(key, xs, ys))
    decreases |xs| + |ys|
  {
    var r := MergeBy(key, xs, ys);
    if xs != [] && ys != [] {
      var h := if key(xs[0]) <= key(ys[0]) then xs[0] else ys[0];
      var xs', ys' := if key(xs[0]) <= key(ys[0]) then xs[1..] else xs,
                      if key(xs[0]) <= key(ys[0]) then ys else ys[1..];
      MergeBySorted(key, xs', ys');
      MergeByLowerBound(key, xs', ys', key(h));
      assert r == [h] + MergeBy(key, xs', ys');
    }
  }

  /** Stability of the merge: among equal keys, the left run's elements come
      first and each run keeps its order. */
  lemma {:induction false} MergeByStable<T>(key: T -> int, k: int, xs: seq<T>, ys: seq<T>)
    requires SortedBy(key, xs)
    ensures WithKey(key, k, MergeBy(key, xs, ys)) == WithKey(key, k, xs) + WithKey(key, k, ys)
    decreases |xs| + |ys|
  {
    if xs == [] {
      assert WithKey(key, k, xs) == [];
    } else if ys == [] {
      assert WithKey(key, k, ys) == [];
    } else if key(xs[0]) <= key(ys[0]) {
      MergeByStable(key, k, xs[1..], ys);
      MergeByStableLeftHead(key, k, xs, ys);
    } else {
      MergeByStable(key, k, xs, ys[1..]);
      MergeByStableRightHead(key, k, xs, ys);
    }
  }

  /** The step of MergeByStable where the left head is taken. */
  lemma MergeByStableLeftHead<T>(key: T -> int, k: int, xs: seq<T>, ys: seq<T>)
    requires xs != [] && ys != [] && key(xs[0]) <= key(ys[0])
    requires WithKey(key, k, MergeBy(key, xs[1..], ys)) == WithKey(key, k, xs[1..]) + WithKey(key, k, ys)
    ensures WithKey(key, k, MergeBy(key, xs, ys)) == WithKey(key, k, xs) + WithKey(key, k, ys)
  {
    HeadTail(xs);
    MergeByTakesLeft(key, xs, ys);
    WithKeyAppend(key, k, [xs[0]], MergeBy(key, xs[1..], ys));
    WithKeyAppend(key, k, [xs[0]], xs[1..]);
  }

  /** The step of MergeByStable where the right head is taken. */
  lemma MergeByStableRightHead<T>(key: T -> int, k: int, xs: seq<T>, ys: seq<T>)
    requires SortedBy(key, xs)
    requires xs != [] && ys != [] && key(xs[0]) > key(ys[0])
    requires WithKey(key, k, MergeBy(key, xs, ys[1..])) == WithKey(key, k, xs) + WithKey(key, k, ys[1..])
    ensures WithKey(key, k, MergeBy(key, xs, ys)) == WithKey(key, k, xs) + WithKey(key, k, ys)
  {
    var y, ys' := ys[0], ys[1..];
    assert ys == [y] + ys';
    var m' := MergeBy(key, xs, ys');
    assert MergeBy(key, xs, ys) == [y] + m';
    RightHeadOvertakesNothing(key, k, xs, y);
    ConcatSwapMiddle(WithKey(key, k, [y]), WithKey(key, k, xs), WithKey(key, k, ys'));
    WithKeyAppend(key, k, [y], m');
    WithKeyAppend(key, k, [y], ys');
  }

  lemma ConcatSwapMiddle<T>(a: seq<T>, b: seq<T>, c: seq<T>)
    requires a + b == b + a
    ensures a + (b + c) == b + (a + c)
  {
    calc {
      a + (b + c);
      (a + b) + c;
      (b + a) + c;
      b + (a + c);
    }
  }

  /** An element y taken before a sorted left run whose head has a larger key
      passes no element of that run with y's key. */
  lemma RightHeadOvertakesNothing<T>(key: T -> int, k: int, xs: seq<T>, y: T)
    requires SortedBy(key, xs)
    requires xs != [] && key(xs[0]) > key(y)
    ensures WithKey(key, k, [y]) + WithKey(key, k, xs) == WithKey(key, k, xs) + WithKey(key, k, [y])
  {
    assert [y][..0] == [];
    if key(y) == k {
      assert forall i :: 0 <= i < |xs| ==> key(xs[0]) <= key(xs[i]);
      WithKeyNone(key, k, xs);
    } else {
      assert WithKey(key, k, [y]) == [];
    }
  }

  /** Top-down merge sort with the split mergeSort(left, right) uses:
      the left half holds the elements up to floor((left + right) / 2). */
  function MergeSortBy<T>(key: T -> int, s: seq<T>): (r: seq<T>)
    ensures |r| == |s|
    decreases |s|
  {
    if |s| <= 1 then s
    else
      var m := (|s| + 1) / 2;
      MergeBy(key, MergeSortBy(key, s[..m]), MergeSortBy(key, s[m..]))
  }

  lemma {:induction false} MergeSortByPermutes<T>(key: T -> int, s: seq<T>)
    ensures multiset(MergeSortBy(key, s)) == multiset(s)
    decreases |s|
  {
    if |s| > 1 {
      var m := (|s| + 1) / 2;
      MergeSortByPermutes(key, s[..m]);
      MergeSortByPermutes(key, s[m..]);
      MergeSortByPermutesStep(key, s);
    }
  }

  lemma MergeSortByPermutesStep<T>(key: T -> int, s: seq<T>)
    requires |s| > 1
    requires multiset(MergeSortBy(key, s[..(|s| + 1) / 2])) == multiset(s[..(|s| + 1) / 2])
    requires multiset(MergeSortBy(key, s[(|s| + 1) / 2..])) == multiset(s[(|s| + 1) / 2..])
    ensures multiset(MergeSortBy(key, s)) == multiset(s)
  {
    var m := (|s| + 1) / 2;
    MergeByPermutes(key, MergeSortBy(key, s[..m]), MergeSortBy(key, s[m..]));
    SplitAt(s, m);
  }

  lemma {:induction false} MergeSortBySorted<T>(key: T -> int, s: seq<T>)
    ensures SortedBy(key, MergeSortBy(key, s))
    decreases |s|
  {
    if |s| > 1 {
      var m := (|s| + 1) / 2;
      MergeSortBySorted(key, s[..m]);
      MergeSortBySorted(key, s[m..]);
      MergeBySorted(key, MergeSortBy(key, s[..m]), MergeSortBy(key, s[m..]));
    }
  }

  /** A sequence has exactly one sorted rearrangement. */
  lemma {:induction false} SortedPermutationUnique(x: seq<int>, y: seq<int>)
    requires Sorted(x) && Sorted(y) && multiset(x) == multiset(y)
    ensures x == y
    decreases |x|
  {
    assert |x| == |multiset(x)| == |multiset(y)| == |y|;
    if |x| > 0 {
      assert x[0] in multiset(y) && y[0] in multiset(x);
      var k :| 0 <= k < |y| && y[k] == x[0];
      var m :| 0 <= m < |x| && x[m] == y[0];
      assert x[0] <= x[m] by { if m > 0 { assert x[0] <= x[m]; } }
      assert y[0] <= y[k] by { if k > 0 { assert y[0] <= y[k]; } }
      HeadTail(x);
      HeadTail(y);
      MultisetCancel(multiset{x[0]}, multiset(x[1..]), multiset(y[1..]), multiset{});
      SortedPermutationUnique(x[1..], y[1..]);
    }
  }

  /** Merge sort on integers is the sort: any sorted rearrangement of s is
      MergeSortBy(Id, s). */
  lemma MergeSortIsTheSort(s: seq<int>, t: seq<int>)
    requires Sorted(t) && multiset(t) == multiset(s)
    ensures t == MergeSortBy(Id, s)
  {
    MergeSortBySorted(Id, s);
    SortedByIdIsSorted(MergeSortBy(Id, s));
    MergeSortByPermutes(Id, s);
    SortedPermutationUnique(t, MergeSortBy(Id, s));
  }

  /** Merge sort is stable: the elements of each key keep their input order. */
  lemma {:induction false} MergeSortByStable<T>(key: T -> int, k: int, s: seq<T>)
    ensures WithKey(key, k, MergeSortBy(key, s)) == WithKey(key, k, s)
    decreases |s|
  {
    if |s| > 1 {
      var m := (|s| + 1) / 2;
      MergeSortByStable(key, k, s[..m]);
      MergeSortByStable(key, k, s[m..]);
      MergeSortByStableStep(key, k, s);
    }
  }

  lemma MergeSortByStableStep<T>(key: T -> int, k: int, s: seq<T>)
    requires |s| > 1
    requires WithKey(key, k, MergeSortBy(key, s[..(|s| + 1) / 2])) == WithKey(key, k, s[..(|s| + 1) / 2])
    requires WithKey(key, k, MergeSortBy(key, s[(|s| + 1) / 2..])) == WithKey(key, k, s[(|s| + 1) / 2..])
    ensures WithKey(key, k, MergeSortBy(key, s)) == WithKey(key, k, s)
  {
    var m := (|s| + 1) / 2;
    var l, r := MergeSortBy(key, s[..m]), MergeSortBy(key, s[m..]);
    assert MergeSortBy(key, s) == MergeBy(key, l, r);
    MergeSortBySorted(key, s[..m]);
    MergeByStable(key, k, l, r);
    SplitAt(s, m);
    WithKeyAppend(key, k, s[..m], s[m..]);
  }

  // ---------------------------------------------------------------------------
  // Insertion: the backward scan of insertionSort, stopping at a key <= x

  function InsertBy<T>(key: T -> int, p: seq<T>, x: T): (r: seq<T>)
    ensures |r| == |p| + 1
  {
    if p == [] then [x]
    else if key(p[|p| - 1]) <= key(x) then p + [x]
    else InsertBy(key, p[..|p| - 1], x) + [p[|p| - 1]]
  }

  function InsertionSortBy<T>(key: T -> int, s: seq<T>): (r: seq<T>)
    ensures |r| == |s|
  {
    if s == [] then []
    else InsertBy(key, InsertionSortBy(key, s[..|s| - 1]), s[|s| - 1])
  }

  lemma {:induction false} InsertByPermutes<T>(key: T -> int, p: seq<T>, x: T)
    ensures multiset(InsertBy(key, p, x)) == multiset(p) + multiset{x}
  {
    if p != [] && key(p[|p| - 1]) > key(x) {
      var q, l := p[..|p| - 1], p[|p| - 1];
      assert InsertBy(key, p, x) == InsertBy(key, q, x) + [l];
      InsertByPermutes(key, q, x);
      assert p == q + [l];
      assert multiset(p) == multiset(q) + multiset([l]);
      assert multiset(InsertBy(key, q, x) + [l]) == multiset(InsertBy(key, q, x)) + multiset([l]);
    }
  }

  lemma {:induction false} InsertBySorted<T>(key: T -> int, p: seq<T>, x: T)
    requires SortedBy(key, p)
    ensures SortedBy(key, InsertBy(key, p, x))
    ensures forall i :: 0 <= i < |p| + 1 ==>
              key(InsertBy(key, p, x)[i]) <= (if p == [] || key(p[|p| - 1]) <= key(x) then key(x) else key(p[|p| - 1]))
  {
    if p != [] && key(p[|p| - 1]) > key(x) {
      var q := p[..|p| - 1];
      InsertBySorted(key, q, x);
    }
  }

  lemma {:induction false} InsertByStable<T>(key: T -> int, k: int, p: seq<T>, x: T)
    ensures WithKey(key, k, InsertBy(key, p, x)) == WithKey(key, k, p) + WithKey(key, k, [x])
  {
    assert [x][..0] == [];
    if p == [] {
    } else if key(p[|p| - 1]) <= key(x) {
    } else {
      var q, l := p[..|p| - 1], p[|p| - 1];
      InsertByStable(key, k, q, x);
      assert (InsertBy(key, q, x) + [l])[..|p|] == InsertBy(key, q, x);
    }
  }

  lemma {:induction false} InsertionSortByPermutes<T>(key: T -> int, s: seq<T>)
    ensures multiset(InsertionSortBy(key, s)) == multiset(s)
  {
    if s != [] {
      InsertionSortByPermutes(key, s[..|s| - 1]);
      InsertionSortByPermutesStep(key, s);
    }
  }

  lemma InsertionSortByPermutesStep<T>(key: T -> int, s: seq<T>)
    requires s != []
    requires multiset(InsertionSortBy(key, s[..|s| - 1])) == multiset(s[..|s| - 1])
    ensures multiset(InsertionSortBy(key, s)) == multiset(s)
  {
    var p, x := s[..|s| - 1], s[|s| - 1];
    var q := InsertionSortBy(key, p);
    assert InsertionSortBy(key, s) == InsertBy(key, q, x);
    InsertByPermutes(key, q, x);
    InitLast(s);
  }

  /** xs is its prefix followed by its last element. */
  lemma InitLast<T>(xs: seq<T>)
    requires xs != []
    ensures xs == xs[..|xs| - 1] + [xs[|xs| - 1]]
    ensures multiset(xs) == multiset(xs[..|xs| - 1]) + multiset{xs[|xs| - 1]}
  {
    assert xs == xs[..|xs| - 1] + [xs[|xs| - 1]];
  }

  lemma {:induction false} InsertionSortBySorted<T>(key: T -> int, s: seq<T>)
    ensures SortedBy(key, InsertionSortBy(key, s))
  {
    if s != [] {
      InsertionSortBySorted(key, s[..|s| - 1]);
      InsertBySorted(key, InsertionSortBy(key, s[..|s| - 1]), s[|s| - 1]);
    }
  }

  /** Insertion sort is stable: the elements of each key keep their input order. */
  lemma {:induction false} InsertionSortByStable<T>(key: T -> int, k: int, s: seq<T>)
    ensures WithKey(key, k, InsertionSortBy(key, s)) == WithKey(key, k, s)
  {
    if s != [] {
      var p, x := s[..|s| - 1], s[|s| - 1];
      InsertionSortByStable(key, k, p);
      InsertByStable(key, k, InsertionSortBy(key, p), x);
      WithKeyAppend(key, k, p, [x]);
      assert s == p + [x];
    }
  }

  /** Insertion sort and merge sort compute the same sequence. */
  lemma InsertionSortIsMergeSort(s: seq<int>)
    ensures InsertionSortBy(Id, s) == MergeSortBy(Id, s)
  {
    InsertionSortBySorted(Id, s);
    SortedByIdIsSorted(InsertionSortBy(Id, s));
    InsertionSortByPermutes(Id, s);
    MergeSortIsTheSort(s, InsertionSortBy(Id, s));
  }

  /** Inserting x adds one to the count of elements above y exactly when x is. */
  lemma {:induction false} CountGreaterInsert(p: seq<int>, x: int, y: int)
    ensures CountGreater(InsertBy(Id, p, x), y) == CountGreater(p, y) + (if x > y then 1 else 0)
  {
    if p == [] {
      assert [x][..0] == [];
    } else if p[|p| - 1] <= x {
      assert (p + [x])[..|p|] == p;
    } else {
      var q, l := p[..|p| - 1], p[|p| - 1];
      CountGreaterInsert(q, x, y);
      assert (InsertBy(Id, q, x) + [l])[..|p|] == InsertBy(Id, q, x);
    }
  }

  lemma {:induction false} CountGreaterInsertionSort(s: seq<int>, y: int)
    ensures CountGreater(InsertionSortBy(Id, s), y) == CountGreater(s, y)
  {
    if s != [] {
      var p := s[..|s| - 1];
      CountGreaterInsertionSort(p, y);
      CountGreaterInsert(InsertionSortBy(Id, p), s[|s| - 1], y);
    }
  }

  // ---------------------------------------------------------------------------
  // Sortedness and rearrangement of an index range [lo, hi)

  /** The elements at indices lo, ..., hi - 1 are in non-decreasing order. */
  predicate SortedRange(s: seq<int>, lo: int, hi: int) {
    forall i, j :: lo <= i < j < hi && 0 <= i && j < |s| ==> s[i] <= s[j]
  }

  /** t agrees with s everywhere except possibly at the indices [lo, hi). */
  predicate SameOutside(s: seq<int>, t: seq<int>, lo: int, hi: int) {
    |s| == |t| && 0 <= lo <= hi <= |s| &&
    forall k :: 0 <= k < |s| && !(lo <= k < hi) ==> s[k] == t[k]
  }

  /** t is s with only the elements at indices [lo, hi) rearranged: the same
      elements overall, and the same element at every index outside. */
  predicate PermutedWithin(s: seq<int>, t: seq<int>, lo: int, hi: int) {
    SameOutside(s, t, lo, hi) && multiset(s) == multiset(t)
  }

  /** Exchanging two elements of the range rearranges it. */
  lemma PermutedWithinSwap(s: seq<int>, lo: int, hi: int, i: int, j: int)
    requires 0 <= lo <= i < hi <= |s| && lo <= j < hi
    ensures PermutedWithin(s, Swapped(s, i, j), lo, hi)
  {
  }

  /** The range itself holds the same elements before and after. */
  lemma {:induction false} PermutedWithinRange(s: seq<int>, t: seq<int>, lo: int, hi: int)
    requires PermutedWithin(s, t, lo, hi)
    ensures multiset(s[lo..hi]) == multiset(t[lo..hi])
  {
    var a, b, c := s[..lo], s[lo..hi], s[hi..];
    var b' := t[lo..hi];
    assert t[..lo] == a && t[hi..] == c;
    assert s == a + b + c && t == a + b' + c;
    MultisetCancel(multiset(a), multiset(b), multiset(b'), multiset(c));
  }

  /** Conversely, the same elements in the range and nothing changed outside
      it is a rearrangement of the range. */
  lemma PermutedWithinFromRange(s: seq<int>, t: seq<int>, lo: int, hi: int)
    requires SameOutside(s, t, lo, hi) && multiset(s[lo..hi]) == multiset(t[lo..hi])
    ensures PermutedWithin(s, t, lo, hi)
  {
    var a, b, c := s[..lo], s[lo..hi], s[hi..];
    var b' := t[lo..hi];
    assert t[..lo] == a && t[hi..] == c;
    assert s == a + b + c && t == a + b' + c;
  }

  /** A rearrangement of [lo, hi) followed by one of [mid, hi) inside it. */
  lemma PermutedWithinNarrower(s: seq<int>, t: seq<int>, u: seq<int>, lo: int, mid: int, hi: int)
    requires lo <= mid && PermutedWithin(s, t, lo, hi) && PermutedWithin(t, u, mid, hi)
    ensures PermutedWithin(s, u, lo, hi)
  {
  }

  /** A sorted range is a sorted slice, and back. */
  lemma SortedRangeToSlice(s: seq<int>, lo: int, hi: int)
    requires 0 <= lo <= hi <= |s| && SortedRange(s, lo, hi)
    ensures Sorted(s[lo..hi])
  {
  }

  lemma SortedSliceToRange(s: seq<int>, lo: int, hi: int)
    requires 0 <= lo <= hi <= |s| && Sorted(s[lo..hi])
    ensures SortedRange(s, lo, hi)
  {
    forall i, j | lo <= i < j < hi ensures s[i] <= s[j] {
      assert s[i] == s[lo..hi][i - lo] && s[j] == s[lo..hi][j - lo];
    }
  }

  lemma MultisetCancel(a: multiset<int>, b: multiset<int>, b': multiset<int>, c: multiset<int>)
    requires a + b + c == a + b' + c
    ensures b == b'
  {
    forall x ensures b[x] == b'[x] {
      assert (a + b + c)[x] == (a + b' + c)[x];
    }
  }

  /** A property of every element of the range survives its rearrangement. */
  lemma PermutedWithinKeeps(s: seq<int>, t: seq<int>, lo: int, hi: int, P: int -> bool)
    requires PermutedWithin(s, t, lo, hi)
    requires forall k :: lo <= k < hi ==> P(s[k])
    ensures forall k :: lo <= k < hi ==> P(t[k])
  {
    PermutedWithinRange(s, t, lo, hi);
    forall k | lo <= k < hi ensures P(t[k]) {
      assert t[k] == t[lo..hi][k - lo];
      assert t[k] in multiset(s[lo..hi]);
      var m :| 0 <= m < hi - lo && s[lo..hi][m] == t[k];
      assert P(s[lo + m]);
    }
  }

  // ---------------------------------------------------------------------------
  // Max-heap order over the array prefix [0, n), children of c at 2c+1, 2c+2

  function Parent(c: int): int { (c - 1) / 2 }

  /** Every node c < n whose parent is at index lo or above is at most its parent. */
  predicate HeapOrdered(s: seq<int>, n: int, lo: int)
    requires n <= |s|
  {
    forall c :: 0 < c < n && lo <= Parent(c) ==> s[c] <= s[Parent(c)]
  }

  /** As HeapOrdered, except that the children of node i are not constrained. */
  predicate HeapOrderedExcept(s: seq<int>, n: int, lo: int, i: int)
    requires n <= |s|
  {
    forall c :: 0 < c < n && lo <= Parent(c) && Parent(c) != i ==> s[c] <= s[Parent(c)]
  }

  predicate IsMaxHeap(s: seq<int>, n: int)
    requires n <= |s|
  {
    HeapOrdered(s, n, 0)
  }

  /** The root of a max-heap is at least every element of the heap. */
  lemma {:induction false} HeapRootIsMax(s: seq<int>, n: int, k: int)
    requires n <= |s| && IsMaxHeap(s, n)
    requires 0 <= k < n
    ensures s[k] <= s[0]
    decreases k
  {
    if k > 0 {
      HeapRootIsMax(s, n, Parent(k));
    }
  }

  /** Height of the subtree rooted at i within [0, n), counted in levels. */
  function Height(n: int, i: nat): (h: nat)
    ensures h >= 1
    decreases n - i
  {
    if 2 * i + 1 >= n then 1
    else
      var l, r := Height(n, 2 * i + 1), Height(n, 2 * i + 2);
      1 + (if l >= r then l else r)
  }

  // ---------------------------------------------------------------------------
  // Comparison totals of the nested-loop sorts

  /** Comparisons after i full passes of bubble or selection sort on n
      elements: pass p makes n - 1 - p comparisons. */
  function PassTotal(n: int, i: nat): int {
    if i == 0 then 0 else PassTotal(n, i - 1) + (n - i)
  }

  lemma {:induction false} PassTotalClosedForm(n: int, i: nat)
    ensures 2 * PassTotal(n, i) == i * (2 * n - i - 1)
  {
    if i > 0 {
      PassTotalClosedForm(n, i - 1);
    }
  }

  /** n - 1 passes make n(n-1)/2 comparisons. */
  lemma AllPassesTotal(n: nat)
    requires n >= 1
    ensures PassTotal(n, n - 1) == n * (n - 1) / 2
  {
    PassTotalClosedForm(n, n - 1);
  }

  /** 0 + 1 + ... + (i - 1): the most comparisons of i - 1 insertions. */
  function Triangle(i: nat): nat {
    if i == 0 then 0 else Triangle(i - 1) + (i - 1)
  }

  lemma {:induction false} TriangleClosedForm(i: nat)
    ensures 2 * Triangle(i) == i * (i - 1)
  {
    if i > 0 {
      TriangleClosedForm(i - 1);
    }
  }

  /** Up to i - 1 insertions of an n-element array make at most n(n-1)/2
      comparisons. */
  lemma TriangleBound(i: nat, n: nat)
    requires i <= n
    ensures Triangle(i) <= n * (n - 1) / 2
  {
    TriangleMono(i, n);
    TriangleClosedForm(n);
  }

  lemma {:induction false} TriangleMono(i: nat, n: nat)
    requires i <= n
    ensures Triangle(i) <= Triangle(n)
  {
    if i < n {
      TriangleMono(i, n - 1);
    }
  }
}
