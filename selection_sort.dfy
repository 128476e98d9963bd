/**
  `selection_sort`: sorts the timestamp vector ascending in place and applies
  every swap to the name vector too, so that each name stays with its time.

  `SelectionSorted` is the algorithm as a function on the two vectors; the
  lemmas prove that its times are sorted, that the (name, time) pairs are a
  permutation of the original pairs, and that sorted input is left alone. The
  method `SelectionSort` works in place on the two arrays and is proved to
  produce exactly `SelectionSorted` of its input.
 */
module Sorting {
  import opened Inventory

  /** Non-decreasing order of the timestamps. */
  ghost predicate Sorted(times: seq<u64>)
  {
    forall a, b :: 0 <= a < b < |times| ==> times[a] <= times[b]
  }

  /**
    The times before `i` are sorted and none of them is later than a time
    from `i` on: what the outer loop has achieved after `i` rounds.
   */
  ghost predicate SortedPrefix(times: seq<u64>, i: nat)
  {
    && (forall a, b :: 0 <= a < b < i && b < |times| ==> times[a] <= times[b])
    && (forall a, b :: 0 <= a < i <= b < |times| ==> times[a] <= times[b])
  }

  /** `slice::swap(i, j)`. */
  function Swap<T>(s: seq<T>, i: nat, j: nat): (r: seq<T>)
    requires i < |s| && j < |s|
    ensures |r| == |s| && r[i] == s[j] && r[j] == s[i]
    ensures forall k :: 0 <= k < |s| && k != i && k != j ==> r[k] == s[k]
  {
    s[i := s[j]][j := s[i]]
  }

  /** A swap rearranges and neither loses nor duplicates. */
  lemma SwapPermutes<T>(s: seq<T>, i: nat, j: nat)
    requires i < |s| && j < |s|
    ensures multiset(Swap(s, i, j)) == multiset(s)
  {
  }

  /**
    The index the inner scan settles on: the leftmost index of the least time
    among those from `lo` on.
   */
  function LeftmostMin(times: seq<u64>, lo: nat): (m: nat)
    requires lo < |times|
    ensures lo <= m < |times|
    ensures forall k :: lo <= k < |times| ==> times[m] <= times[k]
    ensures forall k :: lo <= k < m ==> times[m] < times[k]
    decreases |times| - lo
  {
    if lo == |times| - 1 then lo
    else
      var m := LeftmostMin(times, lo + 1);
      if times[m] < times[lo] then m else lo
  }

  /** The leftmost minimum is the only index with those two properties. */
  lemma LeftmostMinUnique(times: seq<u64>, lo: nat, m: nat)
    requires lo <= m < |times|
    requires forall k :: lo <= k < |times| ==> times[m] <= times[k]
    requires forall k :: lo <= k < m ==> times[m] < times[k]
    ensures m == LeftmostMin(times, lo)
  {
    var m' := LeftmostMin(times, lo);
    assert !(m < m') && !(m' < m);
  }

  /**
    The rounds `i`, `i + 1`, ... of the outer loop, on both vectors. They
    only swap at positions from `i` on, so the first `i` positions keep
    what they hold.
   */
  function SortFrom(names: seq<string>, times: seq<u64>, i: nat): (r: (seq<string>, seq<u64>))
    requires |names| == |times|
    ensures |r.0| == |r.1| == |times|
    ensures i <= |times| ==> r.0[..i] == names[..i] && r.1[..i] == times[..i]
    decreases |times| - i
  {
    if i >= |times| then (names, times)
    else
      var m := LeftmostMin(times, i);
      var r := SortFrom(Swap(names, i, m), Swap(times, i, m), i + 1);
      assert r.0[..i] == r.0[..i + 1][..i] == names[..i];
      assert r.1[..i] == r.1[..i + 1][..i] == times[..i];
      r
  }

  /**
    Selection sort with leftmost-minimum selection, on the two vectors. Both
    keep their length; `SelectionSortedIsSortedPermutation` proves the times
    sorted and the pairs rearranged.
   */
  function SelectionSorted(names: seq<string>, times: seq<u64>): (r: (seq<string>, seq<u64>))
    requires |names| == |times|
    ensures |r.0| == |r.1| == |names|
  {
    SortFrom(names, times, 0)
  }

  /**
    One round of the outer loop: when `m` is the leftmost minimum from `i`
    on, the rounds from `i` are that swap followed by the rounds from `i + 1`.
   */
  lemma RoundStep(names: seq<string>, times: seq<u64>, i: nat, m: nat)
    requires |names| == |times| && i <= m < |times|
    requires forall k :: i <= k < |times| ==> times[m] <= times[k]
    requires forall k :: i <= k < m ==> times[m] < times[k]
    ensures SortFrom(names, times, i) == SortFrom(Swap(names, i, m), Swap(times, i, m), i + 1)
  {
    LeftmostMinUnique(times, i, m);
  }

  /** One round extends the sorted prefix by one. */
  lemma RoundExtendsPrefix(times: seq<u64>, i: nat)
    requires i < |times| && SortedPrefix(times, i)
    ensures SortedPrefix(Swap(times, i, LeftmostMin(times, i)), i + 1)
  {
  }

  lemma {:induction false} SortFromSorted(names: seq<string>, times: seq<u64>, i: nat)
    requires |names| == |times| && SortedPrefix(times, i)
    ensures Sorted(SortFrom(names, times, i).1)
    decreases |times| - i
  {
    if i < |times| {
      var m := LeftmostMin(times, i);
      RoundExtendsPrefix(times, i);
      SortFromSorted(Swap(names, i, m), Swap(times, i, m), i + 1);
    }
  }

  /** Swapping the same two places in both vectors swaps the pairs. */
  lemma ZipSwap(names: seq<string>, times: seq<u64>, i: nat, j: nat)
    requires |names| == |times| && i < |names| && j < |names|
    ensures Zip(Swap(names, i, j), Swap(times, i, j)) == Swap(Zip(names, times), i, j)
  {
  }

  lemma {:induction false} SortFromKeepsPairs(names: seq<string>, times: seq<u64>, i: nat)
    requires |names| == |times|
    ensures multiset(Zip(SortFrom(names, times, i).0, SortFrom(names, times, i).1)) == multiset(Zip(names, times))
    ensures multiset(SortFrom(names, times, i).0) == multiset(names)
    ensures multiset(SortFrom(names, times, i).1) == multiset(times)
    decreases |times| - i
  {
    if i < |times| {
      var m := LeftmostMin(times, i);
      ZipSwap(names, times, i, m);
      SwapPermutes(Zip(names, times), i, m);
      SwapPermutes(names, i, m);
      SwapPermutes(times, i, m);
      SortFromKeepsPairs(Swap(names, i, m), Swap(times, i, m), i + 1);
    }
  }

  /**
    The sorted times are in non-decreasing order, and the sorted (name, time)
    pairs are the original pairs rearranged: no name is separated from its
    time, none is lost and none is duplicated.
   */
  lemma SelectionSortedIsSortedPermutation(names: seq<string>, times: seq<u64>)
    requires |names| == |times|
    ensures Sorted(SelectionSorted(names, times).1)
    ensures multiset(Zip(SelectionSorted(names, times).0, SelectionSorted(names, times).1)) == multiset(Zip(names, times))
    ensures multiset(SelectionSorted(names, times).0) == multiset(names)
    ensures multiset(SelectionSorted(names, times).1) == multiset(times)
  {
    SortFromSorted(names, times, 0);
    SortFromKeepsPairs(names, times, 0);
  }

  lemma {:induction false} SortFromFixesSorted(names: seq<string>, times: seq<u64>, i: nat)
    requires |names| == |times| && Sorted(times)
    ensures SortFrom(names, times, i) == (names, times)
    decreases |times| - i
  {
    if i < |times| {
      LeftmostMinUnique(times, i, i);
      assert Swap(names, i, i) == names && Swap(times, i, i) == times;
      SortFromFixesSorted(names, times, i + 1);
    }
  }

  /**
    Vectors whose times are already sorted are left exactly as they are, so
    sorting twice is sorting once.
   */
  lemma SelectionSortedIdempotent(names: seq<string>, times: seq<u64>)
    requires |names| == |times|
    ensures Sorted(times) ==> SelectionSorted(names, times) == (names, times)
    ensures var (ns, ts) := SelectionSorted(names, times); SelectionSorted(ns, ts) == (ns, ts)
  {
    if Sorted(times) {
      SortFromFixesSorted(names, times, 0);
    }
    var (ns, ts) := SelectionSorted(names, times);
    SelectionSortedIsSortedPermutation(names, times);
    SortFromFixesSorted(ns, ts, 0);
  }

  /**
    The selection sort is not stable: of two files with equal times, the one
    listed first can end up second. Here a later, older file is swapped to
    the front, carrying `a` behind `b`.
   */
  lemma NotStable(a: string, b: string, c: string, t: u64, s: u64)
    requires s < t
    ensures SelectionSorted([a, b, c], [t, t, s]) == ([c, b, a], [s, t, t])
  {
    var names, times := [a, b, c], [t, t, s];
    var names1, times1 := [c, b, a], [s, t, t];
    RoundStep(names, times, 0, 2);
    assert Swap(names, 0, 2) == names1 && Swap(times, 0, 2) == times1;
    RoundStep(names1, times1, 1, 1);
    assert Swap(names1, 1, 1) == names1 && Swap(times1, 1, 1) == times1;
    RoundStep(names1, times1, 2, 2);
    assert Swap(names1, 2, 2) == names1 && Swap(times1, 2, 2) == times1;
  }

  /**
    The inner scan of `selection_sort`: starting from `i` and replacing the
    candidate only on a strictly smaller time, it ends on the leftmost index
    of the least time from `i` on.
   */
  method LeftmostMinIndex(fileTimes: array<u64>, i: nat) returns (min: nat)
    requires i < fileTimes.Length
    ensures i <= min < fileTimes.Length
    ensures forall k :: i <= k < fileTimes.Length ==> fileTimes[min] <= fileTimes[k]
    ensures forall k :: i <= k < min ==> fileTimes[min] < fileTimes[k]
  {
    min := i;
    for j := i to fileTimes.Length
      invariant i <= min < fileTimes.Length && min <= j
      invariant forall k :: i <= k < j ==> fileTimes[min] <= fileTimes[k]
      invariant forall k :: i <= k < min ==> fileTimes[min] < fileTimes[k]
    {
      if fileTimes[j] < fileTimes[min] {
        min := j;
      }
    }
  }

  /** `slice::swap(i, j)` on an array. */
  method SwapInPlace<T>(a: array<T>, i: nat, j: nat)
    requires i < a.Length && j < a.Length
    modifies a
    ensures a[..] == Swap(old(a[..]), i, j)
  {
    var t := a[i];
    a[i] := a[j];
    a[j] := t;
  }

  /**
    `selection_sort(filenames, file_times)`: afterwards the times are in
    non-decreasing order, the (name, time) pairs are a permutation of the
    original pairs, and both vectors are exactly `SelectionSorted` of the
    originals.
   */
  method SelectionSort(filenames: array<string>, fileTimes: array<u64>)
    requires filenames.Length == fileTimes.Length
    modifies filenames, fileTimes
    ensures Sorted(fileTimes[..])
    ensures multiset(Zip(filenames[..], fileTimes[..])) == multiset(Zip(old(filenames[..]), old(fileTimes[..])))
    ensures (filenames[..], fileTimes[..]) == SelectionSorted(old(filenames[..]), old(fileTimes[..]))
  {
    ghost var names0, times0 := filenames[..], fileTimes[..];
    var n := filenames.Length;
    for i := 0 to n
      invariant SortFrom(filenames[..], fileTimes[..], i) == SelectionSorted(names0, times0)
      invariant SortedPrefix(fileTimes[..], i)
    {
      var min := LeftmostMinIndex(fileTimes, i);
      LeftmostMinUnique(fileTimes[..], i, min);
      RoundExtendsPrefix(fileTimes[..], i);
      SwapInPlace(filenames, i, min);
      SwapInPlace(fileTimes, i, min);
    }
    SelectionSortedIsSortedPermutation(names0, times0);
  }
}
