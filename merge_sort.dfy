/**
 * `merge_sort`: split at `len(arr) // 2`, sort both halves recursively and merge
 * them, the merge taking from the left list on ties.
 */
module MergeSorting {
  import opened SortSpec

  /** What the merge loop keeps: the output so far is in order and no value of it exceeds
      the next candidate of either list. */
  predicate MergeOrdered(result: seq<int>, left: seq<int>, right: seq<int>, i: int, j: int)
    requires 0 <= i <= |left| && 0 <= j <= |right|
  {
    && Sorted(result)
    && (i < |left| ==> AllAtMost(result, left[i]))
    && (j < |right| ==> AllAtMost(result, right[j]))
  }

  /** Taking the head `s[i]` of one sorted list, when it is at most the other head `h`. */
  lemma TakeHead(result: seq<int>, s: seq<int>, i: int, h: int)
    requires Sorted(s) && 0 <= i < |s| && Sorted(result) && AllAtMost(result, s[i]) && s[i] <= h
    ensures Sorted(result + [s[i]]) && AllAtMost(result + [s[i]], h)
    ensures i + 1 < |s| ==> AllAtMost(result + [s[i]], s[i + 1])
  {
  }

  /** Appending the rest `s[i..]` of a sorted list to a sorted run of values that are at
      most `s[i]` keeps the run sorted. */
  lemma MergeTail(result: seq<int>, s: seq<int>, i: int)
    requires 0 <= i <= |s| && Sorted(result) && Sorted(s)
    requires i < |s| ==> AllAtMost(result, s[i])
    ensures Sorted(result + s[i..])
  {
    var r := result + s[i..];
    forall p, q | 0 <= p < q < |r| ensures r[p] <= r[q] {
      if q >= |result| {
        assert r[q] == s[i + q - |result|];
        if p < |result| {
          assert result[p] <= s[i];
        } else {
          assert r[p] == s[i + p - |result|];
        }
      }
    }
  }

  /** One turn of the merge loop: append the smaller head, the left one on ties. */
  method TakeSmaller(left: seq<int>, right: seq<int>, ghost sorted: bool, result: seq<int>, i: int, j: int)
    returns (result': seq<int>, i': int, j': int)
    requires 0 <= i < |left| && 0 <= j < |right|
    requires sorted ==> Sorted(left) && Sorted(right) && MergeOrdered(result, left, right, i, j)
    requires multiset(result) == multiset(left[..i]) + multiset(right[..j])
    ensures left[i] <= right[j] ==> result' == result + [left[i]] && i' == i + 1 && j' == j
    ensures left[i] > right[j] ==> result' == result + [right[j]] && i' == i && j' == j + 1
    ensures 0 <= i' <= |left| && 0 <= j' <= |right|
    ensures sorted ==> MergeOrdered(result', left, right, i', j')
    ensures multiset(result') == multiset(left[..i']) + multiset(right[..j'])
  {
    if left[i] <= right[j] {
      PrefixStep(left, i);
      if sorted {
        TakeHead(result, left, i, right[j]);
      }
      result', i', j' := result + [left[i]], i + 1, j;
    } else {
      PrefixStep(right, j);
      if sorted {
        TakeHead(result, right, j, left[i]);
      }
      result', i', j' := result + [right[j]], i, j + 1;
    }
  }

  /** `merge`: repeatedly take the smaller head (the left one on ties), then append what
      remains of both lists. The result is a rearrangement of `left + right`, and it is in
      order when both lists are. */
  method Merge(left: seq<int>, right: seq<int>) returns (result: seq<int>)
    ensures multiset(result) == multiset(left + right)
    ensures Sorted(left) && Sorted(right) ==> Sorted(result)
  {
    ghost var sorted := Sorted(left) && Sorted(right);
    result := [];
    var i, j := 0, 0;
    while i < |left| && j < |right|
      invariant 0 <= i <= |left| && 0 <= j <= |right|
      invariant multiset(result) == multiset(left[..i]) + multiset(right[..j])
      invariant sorted ==> MergeOrdered(result, left, right, i, j)
      decreases |left| - i + |right| - j
    {
      result, i, j := TakeSmaller(left, right, sorted, result, i, j);
    }
    if sorted {
      MergeTail(result, left, i);
      MergeTail(result + left[i..], right, j);
    }
    MultisetSplit(left, i);
    MultisetSplit(right, j);
    result := result + left[i..] + right[j..];
  }

  /** `merge_sort_recursive`. */
  method MergeSortRecursive(arr: seq<int>) returns (result: seq<int>)
    ensures SortedPermutation(result, arr)
    decreases |arr|
  {
    if |arr| <= 1 {
      return arr;
    }
    var mid := |arr| / 2;
    var left := MergeSortRecursive(arr[..mid]);
    var right := MergeSortRecursive(arr[mid..]);
    assert arr == arr[..mid] + arr[mid..];
    result := Merge(left, right);
  }

  /** `merge_sort`: a list of at most one value comes back as a copy. */
  method MergeSort(input: seq<int>) returns (result: seq<int>)
    ensures SortedPermutation(result, input)
  {
    if |input| <= 1 {
      return input;
    }
    result := MergeSortRecursive(input);
  }
}
