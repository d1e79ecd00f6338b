/**
 * The three quadratic sorts of `SortingAlgorithms`: bubble, selection and insertion
 * sort. Each copies the caller's list into a fresh array and sorts the copy in place,
 * so the caller's list (a value here) is never changed.
 */
module ComparisonSorts {
  import opened SortSpec

  // ---------------------------------------------------------------------------
  // Arrays and swaps
  // ---------------------------------------------------------------------------

  /** `arr.copy()` into an array. */
  method Copy(s: seq<int>) returns (a: array<int>)
    ensures fresh(a) && a[..] == s
  {
    a := new int[|s|](k requires 0 <= k < |s| => s[k]);
  }

  /** `arr[i], arr[j] = arr[j], arr[i]`. */
  method Swap(a: array<int>, i: int, j: int)
    requires 0 <= i < a.Length && 0 <= j < a.Length
    modifies a
    ensures a[..] == old(a[..])[i := old(a[j])][j := old(a[i])]
  {
    a[i], a[j] := a[j], a[i];
  }

  lemma SwapMultiset(a: seq<int>, i: int, j: int)
    requires 0 <= i < |a| && 0 <= j < |a|
    ensures multiset(a[i := a[j]][j := a[i]]) == multiset(a)
  {
  }

  /** Swapping two positions of `a[lo..hi]` rearranges that segment and leaves the rest of
      `a` alone. */
  lemma SwapKeeps(a: seq<int>, lo: int, hi: int, i: int, j: int)
    requires 0 <= lo <= i < hi <= |a| && lo <= j < hi
    ensures var b := a[i := a[j]][j := a[i]];
            multiset(b[lo..hi]) == multiset(a[lo..hi]) && b[..lo] == a[..lo] && b[hi..] == a[hi..]
  {
    var b := a[i := a[j]][j := a[i]];
    var s := a[lo..hi];
    assert b[lo..hi] == s[i - lo := s[j - lo]][j - lo := s[i - lo]];
    SwapMultiset(s, i - lo, j - lo);
  }

  /** Every value of `a[..k]` is at most every value of `a[k..]`. */
  predicate Partitioned(a: seq<int>, k: int) {
    forall p, q :: 0 <= p < k <= q < |a| ==> a[p] <= a[q]
  }

  /** Each value of `a[lo..hi]` is at most its successor. */
  predicate StepSorted(a: seq<int>, lo: int, hi: int)
    requires 0 <= lo <= hi <= |a|
  {
    forall p :: lo <= p < hi - 1 ==> a[p] <= a[p + 1]
  }

  /** `a[lo..hi]` is in order: any two positions, not just neighbours. */
  predicate SortedRange(a: seq<int>, lo: int, hi: int)
    requires 0 <= lo <= hi <= |a|
  {
    forall p, q :: lo <= p < q < hi ==> a[p] <= a[q]
  }

  lemma {:induction false} StepSortedIsSorted(a: seq<int>, lo: int, hi: int)
    requires 0 <= lo <= hi <= |a| && StepSorted(a, lo, hi)
    ensures SortedRange(a, lo, hi)
    decreases hi - lo
  {
    if hi - lo > 1 {
      StepSortedIsSorted(a, lo + 1, hi);
      forall q | lo < q < hi ensures a[lo] <= a[q] {
        assert a[lo] <= a[lo + 1];
      }
    }
  }

  /** Rearranging `a[..k]` keeps it below `a[k..]`. */
  lemma PartitionedRearranged(a: seq<int>, b: seq<int>, k: int)
    requires 0 <= k <= |a| == |b| && Partitioned(a, k)
    requires multiset(b[..k]) == multiset(a[..k]) && b[k..] == a[k..]
    ensures Partitioned(b, k)
  {
    forall p, q | 0 <= p < k <= q < |b| ensures b[p] <= b[q] {
      assert b[p] == b[..k][p];
      assert b[p] in multiset(a[..k]);
      var t :| 0 <= t < k && a[..k][t] == b[p];
      assert b[q] == b[k..][q - k] == a[q];
    }
  }

  // ---------------------------------------------------------------------------
  // Bubble sort
  // ---------------------------------------------------------------------------

  /** One pass of the inner loop, `for j in range(m - 1)`: the largest value of `arr[..m]`
      ends at position `m - 1`, and when no swap happens `arr[..m]` was already in order. */
  method BubblePass(arr: array<int>, m: int) returns (swapped: bool)
    requires 1 <= m <= arr.Length
    modifies arr
    ensures multiset(arr[..m]) == multiset(old(arr[..m])) && arr[m..] == old(arr[m..])
    ensures forall p :: 0 <= p < m ==> arr[p] <= arr[m - 1]
    ensures !swapped ==> SortedRange(arr[..], 0, m)
  {
    swapped := false;
    for j := 0 to m - 1
      invariant multiset(arr[..m]) == multiset(old(arr[..m])) && arr[m..] == old(arr[m..])
      invariant forall p :: 0 <= p <= j ==> arr[p] <= arr[j]
      invariant !swapped ==> StepSorted(arr[..], 0, j + 1)
    {
      if arr[j] > arr[j + 1] {
        SwapKeeps(arr[..], 0, m, j, j + 1);
        Swap(arr, j, j + 1);
        swapped := true;
      }
    }
    if !swapped {
      StepSortedIsSorted(arr[..], 0, m);
    }
  }

  /** After pass `i` the largest `i + 1` values sit in order at the end. */
  lemma BubbleStep(a: seq<int>, b: seq<int>, m: int)
    requires 1 <= m <= |a| == |b|
    requires SortedRange(a, m, |a|) && Partitioned(a, m)
    requires multiset(b[..m]) == multiset(a[..m]) && b[m..] == a[m..]
    requires forall p :: 0 <= p < m ==> b[p] <= b[m - 1]
    ensures SortedRange(b, m - 1, |b|) && Partitioned(b, m - 1)
  {
    PartitionedRearranged(a, b, m);
    forall q | m <= q < |b| ensures b[q] == a[q] {
      assert b[q] == b[m..][q - m];
    }
  }

  /** An ordered prefix below an ordered suffix makes the whole list ordered. */
  lemma SortedJoin(a: seq<int>, k: int)
    requires 0 <= k <= |a| && SortedRange(a, 0, k) && SortedRange(a, k, |a|) && Partitioned(a, k)
    ensures Sorted(a)
  {
  }

  /** A pass over `a[..m]` without a swap leaves the whole list ordered. */
  lemma BubbleDone(a: seq<int>, m: int)
    requires 1 <= m <= |a| && SortedRange(a, 0, m)
    requires SortedRange(a, m - 1, |a|) && Partitioned(a, m - 1)
    ensures Sorted(a)
  {
    assert SortedRange(a, 0, m - 1);
    SortedJoin(a, m - 1);
  }

  /** `bubble_sort`: pass `i` bubbles the largest value of `arr[..n-i]` up to position
      `n-i-1`; a pass without a swap ends the sort early. */
  method BubbleSort(input: seq<int>) returns (result: seq<int>)
    ensures SortedPermutation(result, input)
  {
    var arr := Copy(input);
    var n := arr.Length;
    var i := 0;
    ghost var early := false;
    while i < n - 1
      invariant 0 <= i <= n && (n > 0 ==> i <= n - 1)
      invariant multiset(arr[..]) == multiset(input)
      invariant SortedRange(arr[..], n - i, n) && Partitioned(arr[..], n - i)
    {
      ghost var before := arr[..];
      var swapped := BubblePass(arr, n - i);
      MultisetSplit(before, n - i);
      MultisetSplit(arr[..], n - i);
      BubbleStep(before, arr[..], n - i);
      if !swapped {
        BubbleDone(arr[..], n - i);
        early := true;
        break;
      }
      i := i + 1;
    }
    if !early && n > 0 {
      SortedJoin(arr[..], 1);
    }
    result := arr[..];
  }

  // ---------------------------------------------------------------------------
  // Selection sort
  // ---------------------------------------------------------------------------

  /** The inner loop: the index of the first least value of `arr[i..]`. */
  method MinIndex(arr: array<int>, i: int) returns (minIdx: int)
    requires 0 <= i < arr.Length
    ensures i <= minIdx < arr.Length
    ensures forall k :: i <= k < arr.Length ==> arr[minIdx] <= arr[k]
    ensures forall k :: i <= k < minIdx ==> arr[minIdx] < arr[k]
  {
    minIdx := i;
    for j := i + 1 to arr.Length
      invariant i <= minIdx < j
      invariant forall k :: i <= k < j ==> arr[minIdx] <= arr[k]
      invariant forall k :: i <= k < minIdx ==> arr[minIdx] < arr[k]
    {
      if arr[j] < arr[minIdx] {
        minIdx := j;
      }
    }
  }

  /** Swapping the least value of `a[i..]` into position `i` grows the sorted prefix. */
  lemma SelectionStep(a: seq<int>, i: int, m: int)
    requires 0 <= i <= m < |a|
    requires SortedRange(a, 0, i) && Partitioned(a, i)
    requires forall k :: i <= k < |a| ==> a[m] <= a[k]
    ensures var b := a[i := a[m]][m := a[i]];
            SortedRange(b, 0, i + 1) && Partitioned(b, i + 1) && multiset(b) == multiset(a)
  {
    SwapKeeps(a, 0, |a|, i, m);
    var b := a[i := a[m]][m := a[i]];
    assert b[0..|b|] == b && a[0..|a|] == a;
    forall p, q | 0 <= p < i + 1 <= q < |b| ensures b[p] <= b[q] {
      if q == m {
        assert b[q] == a[i];
      }
    }
  }

  /** `selection_sort`: step `i` swaps the least value of `arr[i..]` into position `i`. */
  method SelectionSort(input: seq<int>) returns (result: seq<int>)
    ensures SortedPermutation(result, input)
  {
    var arr := Copy(input);
    var n := arr.Length;
    var i := 0;
    while i < n - 1
      invariant 0 <= i <= n && (n > 0 ==> i <= n - 1)
      invariant multiset(arr[..]) == multiset(input)
      invariant SortedRange(arr[..], 0, i) && Partitioned(arr[..], i)
    {
      var minIdx := MinIndex(arr, i);
      SelectionStep(arr[..], i, minIdx);
      Swap(arr, i, minIdx);
      i := i + 1;
    }
    result := arr[..];
    assert n > 0 ==> Partitioned(result, n - 1);
  }

  // ---------------------------------------------------------------------------
  // Insertion sort
  // ---------------------------------------------------------------------------

  /** The array during the inner loop of insertion sort, once the values at `h..i-1` have
      each moved one place right: `orig[h]` is at `h` and at `h + 1`, and nothing before
      `h` or after `i` has moved. */
  function Shifted(orig: seq<int>, i: int, h: int): (r: seq<int>)
    requires 0 <= h <= i < |orig|
    ensures |r| == |orig|
  {
    orig[..h + 1] + orig[h..i] + orig[i + 1..]
  }

  /** Nothing at or before the gap has moved. */
  lemma ShiftedAt(orig: seq<int>, i: int, h: int, k: int)
    requires 0 <= k <= h <= i < |orig|
    ensures Shifted(orig, i, h)[k] == orig[k]
  {
  }

  /** Before the inner loop nothing has moved. */
  lemma GapInit(orig: seq<int>, i: int)
    requires 0 <= i < |orig|
    ensures Shifted(orig, i, i) == orig
  {
    assert orig[..i + 1] + orig[i + 1..] == orig;
  }

  /** `arr[j + 1] = arr[j]` moves the gap from `j + 1` down to `j`. */
  lemma GapShift(orig: seq<int>, i: int, j: int)
    requires 0 <= j < i < |orig|
    ensures Shifted(orig, i, j + 1)[j + 1 := orig[j]] == Shifted(orig, i, j)
  {
    var a := Shifted(orig, i, j + 1)[j + 1 := orig[j]];
    var b := Shifted(orig, i, j);
    forall k | 0 <= k < |a| ensures a[k] == b[k] {
      if k > i {
        assert a[k] == orig[k] && b[k] == orig[k];
      } else if k > j + 1 {
        assert a[k] == orig[k - 1] && b[k] == orig[k - 1];
      }
    }
  }

  /** Filling the gap `h` of `Shifted` with `key` inserts `key` at `h`. */
  lemma GapFillShape(orig: seq<int>, i: int, h: int, key: int)
    requires 0 <= h <= i < |orig|
    ensures Shifted(orig, i, h)[h := key] == orig[..h] + [key] + orig[h..i] + orig[i + 1..]
  {
    var a := Shifted(orig, i, h)[h := key];
    var b := orig[..h] + [key] + orig[h..i] + orig[i + 1..];
    forall k | 0 <= k < |a| ensures a[k] == b[k] {
      if k > i {
        assert a[k] == orig[k] && b[k] == orig[k];
      } else if k > h {
        assert a[k] == orig[k - 1] && b[k] == orig[k - 1];
      }
    }
  }

  /** Inserting `key` at `h` into a sorted `orig[..i]`, with everything of `orig[h..i]`
      above `key` and the value before `h` not, gives a sorted prefix `..i+1`. */
  lemma InsertedSorted(orig: seq<int>, i: int, h: int, key: int)
    requires 0 <= h <= i < |orig| && SortedRange(orig, 0, i)
    requires h > 0 ==> orig[h - 1] <= key
    requires forall q :: h <= q < i ==> orig[q] > key
    ensures SortedRange(orig[..h] + [key] + orig[h..i] + orig[i + 1..], 0, i + 1)
  {
    var r := orig[..h] + [key] + orig[h..i] + orig[i + 1..];
    assert forall k :: 0 <= k < h ==> r[k] == orig[k];
    assert forall k :: h < k <= i ==> r[k] == orig[k - 1];
    forall p, q | 0 <= p < q <= i ensures r[p] <= r[q] {
      if q == h {
        assert orig[p] <= orig[h - 1] || p == h - 1;
      }
    }
  }

  /** Inserting `orig[i]` at `h` rearranges `orig[..i+1]` and leaves the rest in place. */
  lemma InsertedElements(orig: seq<int>, i: int, h: int)
    requires 0 <= h <= i < |orig|
    ensures var r := orig[..h] + [orig[i]] + orig[h..i] + orig[i + 1..];
            && multiset(r[..i + 1]) == multiset(orig[..i + 1])
            && r[i + 1..] == orig[i + 1..]
            && multiset(r) == multiset(orig)
  {
    var r := orig[..h] + [orig[i]] + orig[h..i] + orig[i + 1..];
    assert r[..i + 1] == orig[..h] + [orig[i]] + orig[h..i];
    assert orig[..i + 1] == orig[..h] + orig[h..i] + [orig[i]];
    assert r[i + 1..] == orig[i + 1..];
    assert r == r[..i + 1] + r[i + 1..];
    assert orig == orig[..i + 1] + orig[i + 1..];
  }

  /** The inner `while` loop of insertion sort: the values of `arr[..i]` larger than
      `key` move one place right, from the back, and the gap they leave is returned.
      Everything from the gap to `i - 1` exceeds `key`, and the value before it does not. */
  method ShiftLarger(arr: array<int>, i: int, key: int) returns (h: int)
    requires 0 < i < arr.Length
    modifies arr
    ensures 0 <= h <= i && arr[..] == Shifted(old(arr[..]), i, h)
    ensures forall q :: h <= q < i ==> old(arr[..])[q] > key
    ensures h > 0 ==> old(arr[..])[h - 1] <= key
  {
    ghost var orig := arr[..];
    var j := i - 1;
    GapInit(orig, i);
    while j >= 0 && arr[j] > key
      invariant -1 <= j <= i - 1 && arr[..] == Shifted(orig, i, j + 1)
      invariant forall q :: j < q < i ==> orig[q] > key
      decreases j
    {
      ShiftedAt(orig, i, j + 1, j);
      GapShift(orig, i, j);
      ghost var pre := arr[..];
      arr[j + 1] := arr[j];
      assert arr[..] == pre[j + 1 := orig[j]];
      j := j - 1;
    }
    if j >= 0 {
      ShiftedAt(orig, i, j + 1, j);
    }
    h := j + 1;
  }

  /** One step of the outer loop: the values of the sorted prefix `arr[..i]` that exceed
      `key == arr[i]` move one place right and `key` drops into the gap. */
  method InsertAt(arr: array<int>, i: int)
    requires 0 < i < arr.Length && SortedRange(arr[..], 0, i)
    modifies arr
    ensures SortedRange(arr[..], 0, i + 1)
    ensures multiset(arr[..i + 1]) == multiset(old(arr[..i + 1]))
    ensures arr[i + 1..] == old(arr[i + 1..])
    ensures multiset(arr[..]) == multiset(old(arr[..]))
  {
    ghost var orig := arr[..];
    var key := arr[i];
    var h := ShiftLarger(arr, i, key);
    GapFillShape(orig, i, h, key);
    InsertedSorted(orig, i, h, key);
    InsertedElements(orig, i, h);
    arr[h] := key;
    assert arr[..] == orig[..h] + [key] + orig[h..i] + orig[i + 1..];
    assert arr[..i + 1] == arr[..][..i + 1] && arr[i + 1..] == arr[..][i + 1..];
  }

  /** `insertion_sort`: the prefix `arr[..i]` is in order before step `i`. */
  method InsertionSort(input: seq<int>) returns (result: seq<int>)
    ensures SortedPermutation(result, input)
  {
    var arr := Copy(input);
    var n := arr.Length;
    var i := 1;
    while i < n
      invariant 1 <= i && (i <= n || n == 0)
      invariant multiset(arr[..]) == multiset(input)
      invariant n > 0 ==> SortedRange(arr[..], 0, i)
    {
      InsertAt(arr, i);
      i := i + 1;
    }
    result := arr[..];
  }
}
