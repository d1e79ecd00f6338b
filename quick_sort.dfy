/**
 * `quick_sort`: Lomuto partition around the last value of the range, then sort the
 * two sides recursively, all in place on a copy of the caller's list.
 */
module QuickSorting {
  import opened SortSpec
  import opened ComparisonSorts

  /** `b` rearranges `a` and equals it outside `[lo, hi)`, so it rearranges `a[lo..hi]`. */
  predicate Rearranged(a: seq<int>, b: seq<int>, lo: int, hi: int) {
    && 0 <= lo <= hi <= |a| == |b|
    && multiset(b) == multiset(a)
    && forall k :: 0 <= k < |a| && !(lo <= k < hi) ==> b[k] == a[k]
  }

  /** The rearranged segment itself holds the same values as before. */
  lemma RearrangedSegment(a: seq<int>, b: seq<int>, lo: int, hi: int)
    requires Rearranged(a, b, lo, hi)
    ensures multiset(b[lo..hi]) == multiset(a[lo..hi])
  {
    assert a[..lo] == b[..lo] && a[hi..] == b[hi..];
    MultisetSplit(a, hi);
    MultisetSplit(b, hi);
    MultisetSplit(a[..hi], lo);
    MultisetSplit(b[..hi], lo);
    assert a[..hi][..lo] == a[..lo] && b[..hi][..lo] == b[..lo];
    assert a[..hi][lo..] == a[lo..hi] && b[..hi][lo..] == b[lo..hi];
    Cancel(multiset(a[..lo]), multiset(a[lo..hi]), multiset(b[lo..hi]), multiset(a[hi..]));
  }

  lemma Cancel(l: multiset<int>, p: multiset<int>, q: multiset<int>, r: multiset<int>)
    requires (l + p) + r == (l + q) + r
    ensures p == q
  {
    forall x ensures p[x] == q[x] {
      assert ((l + p) + r)[x] == ((l + q) + r)[x];
    }
  }

  /** `a[lo..hi]` is in order. */
  predicate SortedSegment(a: seq<int>, lo: int, hi: int) {
    0 <= lo <= hi <= |a| && forall p, q :: lo <= p < q < hi ==> a[p] <= a[q]
  }

  lemma RearrangedTrans(a: seq<int>, b: seq<int>, c: seq<int>, lo: int, hi: int)
    requires Rearranged(a, b, lo, hi) && Rearranged(b, c, lo, hi)
    ensures Rearranged(a, c, lo, hi)
  {
  }

  /** Rearranging a segment rearranges every segment that contains it. */
  lemma RearrangedWiden(a: seq<int>, b: seq<int>, lo: int, hi: int, lo': int, hi': int)
    requires Rearranged(a, b, lo, hi) && 0 <= lo' <= lo && hi <= hi' <= |a|
    ensures Rearranged(a, b, lo', hi')
  {
  }

  /** The pivot sits at `p` inside `[low, high]`, with the values at most it before it and
      the values above it after it. */
  predicate PartitionedAt(a: seq<int>, low: int, p: int, high: int) {
    && 0 <= low <= p <= high < |a|
    && (forall k :: low <= k < p ==> a[k] <= a[p])
    && (forall k :: p < k <= high ==> a[p] < a[k])
  }

  /** One turn of the partition loop: a value at most the pivot is swapped to the end of
      the low side. */
  method PartitionStep(arr: array<int>, ghost orig: seq<int>, low: int, high: int, pivot: int, i: int, j: int)
    returns (i': int)
    requires 0 <= low <= j < high < arr.Length && low - 1 <= i < j && arr[high] == pivot
    requires forall k :: low <= k <= i ==> arr[k] <= pivot
    requires forall k :: i < k < j ==> pivot < arr[k]
    requires Rearranged(orig, arr[..], low, high + 1)
    modifies arr
    ensures i' == (if old(arr[j]) <= pivot then i + 1 else i) && arr[high] == pivot
    ensures forall k :: low <= k <= i' ==> arr[k] <= pivot
    ensures forall k :: i' < k <= j ==> pivot < arr[k]
    ensures Rearranged(orig, arr[..], low, high + 1)
  {
    i' := i;
    if arr[j] <= pivot {
      i' := i + 1;
      SwapMultiset(arr[..], i', j);
      Swap(arr, i', j);
    }
  }

  /** `partition(arr, low, high)`: the values of `arr[low..high]` that are at most the
      pivot `arr[high]` are swapped to the front, then the pivot into the slot after them,
      whose index is returned. */
  method Partition(arr: array<int>, low: int, high: int) returns (p: int)
    requires 0 <= low <= high < arr.Length
    modifies arr
    ensures PartitionedAt(arr[..], low, p, high) && arr[p] == old(arr[high])
    ensures Rearranged(old(arr[..]), arr[..], low, high + 1)
  {
    ghost var orig := arr[..];
    var pivot := arr[high];
    var i := low - 1;
    for j := low to high
      invariant low - 1 <= i < j && arr[high] == pivot
      invariant forall k :: low <= k <= i ==> arr[k] <= pivot
      invariant forall k :: i < k < j ==> pivot < arr[k]
      invariant Rearranged(orig, arr[..], low, high + 1)
    {
      i := PartitionStep(arr, orig, low, high, pivot, i, j);
    }
    SwapMultiset(arr[..], i + 1, high);
    Swap(arr, i + 1, high);
    p := i + 1;
  }

  /** Outside the rearranged segment nothing changes. */
  lemma RearrangedOutside(a: seq<int>, b: seq<int>, lo: int, hi: int, k: int)
    requires Rearranged(a, b, lo, hi) && 0 <= k < |a| && !(lo <= k < hi)
    ensures b[k] == a[k]
  {
  }

  /** Rearranging a segment keeps all of its values at most `x`, or all above `x`. */
  lemma RearrangedBounds(a: seq<int>, b: seq<int>, lo: int, hi: int, x: int)
    requires Rearranged(a, b, lo, hi)
    ensures (forall k :: lo <= k < hi ==> a[k] <= x) ==> forall k :: lo <= k < hi ==> b[k] <= x
    ensures (forall k :: lo <= k < hi ==> x < a[k]) ==> forall k :: lo <= k < hi ==> x < b[k]
  {
    RearrangedSegment(a, b, lo, hi);
    forall k | lo <= k < hi ensures exists l :: lo <= l < hi && a[l] == b[k] {
      assert b[k] == b[lo..hi][k - lo];
      assert b[k] in multiset(a[lo..hi]);
      var t :| 0 <= t < hi - lo && a[lo..hi][t] == b[k];
      assert a[lo + t] == b[k];
    }
  }

  /** A pivot with the values at most it before it, the values above it after it, and
      both sides in order: the whole range is in order. */
  lemma SortedAround(a: seq<int>, low: int, p: int, high: int)
    requires PartitionedAt(a, low, p, high)
    requires SortedSegment(a, low, p) && SortedSegment(a, p + 1, high + 1)
    ensures SortedSegment(a, low, high + 1)
  {
  }

  /** Sorting the left side keeps it at most the pivot. */
  lemma LeftSorted(a0: seq<int>, a1: seq<int>, low: int, p: int, high: int)
    requires PartitionedAt(a0, low, p, high) && Rearranged(a0, a1, low, p)
    ensures PartitionedAt(a1, low, p, high) && a1[p] == a0[p]
  {
    RearrangedBounds(a0, a1, low, p, a0[p]);
  }

  /** Sorting the right side keeps it above the pivot, and leaves the sorted left side
      alone. */
  lemma RightSorted(a1: seq<int>, a2: seq<int>, low: int, p: int, high: int)
    requires PartitionedAt(a1, low, p, high) && SortedSegment(a1, low, p)
    requires Rearranged(a1, a2, p + 1, high + 1)
    ensures PartitionedAt(a2, low, p, high) && SortedSegment(a2, low, p)
  {
    RearrangedBounds(a1, a2, p + 1, high + 1, a1[p]);
  }

  /** The three rearrangements compose to one of the whole range. */
  lemma QuickRearranged(a: seq<int>, a0: seq<int>, a1: seq<int>, a2: seq<int>, low: int, p: int, high: int)
    requires low <= p <= high
    requires Rearranged(a, a0, low, high + 1) && Rearranged(a0, a1, low, p)
    requires Rearranged(a1, a2, p + 1, high + 1)
    ensures Rearranged(a, a2, low, high + 1)
  {
    RearrangedWiden(a0, a1, low, p, low, high + 1);
    RearrangedWiden(a1, a2, p + 1, high + 1, low, high + 1);
    RearrangedTrans(a0, a1, a2, low, high + 1);
    RearrangedTrans(a, a0, a2, low, high + 1);
  }

  /** After the partition and both recursive calls the whole range is in order: the left
      side holds the values at most the pivot, the right side those above it, and each side
      is sorted. */
  lemma QuickCombine(a: seq<int>, a0: seq<int>, a1: seq<int>, a2: seq<int>, low: int, p: int, high: int)
    requires Rearranged(a, a0, low, high + 1) && PartitionedAt(a0, low, p, high)
    requires Rearranged(a0, a1, low, p) && SortedSegment(a1, low, p)
    requires Rearranged(a1, a2, p + 1, high + 1) && SortedSegment(a2, p + 1, high + 1)
    ensures SortedSegment(a2, low, high + 1) && Rearranged(a, a2, low, high + 1)
  {
    LeftSorted(a0, a1, low, p, high);
    RightSorted(a1, a2, low, p, high);
    SortedAround(a2, low, p, high);
    QuickRearranged(a, a0, a1, a2, low, p, high);
  }

  /** `quick_sort_recursive(arr, low, high)`: sorts `arr[low..high]` (both ends included)
      and touches nothing outside it. */
  method QuickSortRecursive(arr: array<int>, low: int, high: int)
    requires 0 <= low <= high + 1 <= arr.Length
    modifies arr
    ensures SortedSegment(arr[..], low, high + 1)
    ensures Rearranged(old(arr[..]), arr[..], low, high + 1)
    decreases high - low
  {
    if low < high {
      ghost var a := arr[..];
      var pi := Partition(arr, low, high);
      ghost var a0 := arr[..];
      QuickSortRecursive(arr, low, pi - 1);
      ghost var a1 := arr[..];
      QuickSortRecursive(arr, pi + 1, high);
      QuickCombine(a, a0, a1, arr[..], low, pi, high);
    } else {
      assert arr[low..high + 1] == old(arr[..])[low..high + 1];
    }
  }

  /** `quick_sort`. */
  method QuickSort(input: seq<int>) returns (result: seq<int>)
    ensures SortedPermutation(result, input)
  {
    var arr := Copy(input);
    QuickSortRecursive(arr, 0, arr.Length - 1);
    result := arr[..];
    assert result[0..|result|] == result && input[0..|input|] == input;
  }
}
