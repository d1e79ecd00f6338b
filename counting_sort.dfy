/**
 * `counting_sort`: one stable counting pass with bucket `num - min_val`, refused when
 * the range of values is too wide.
 */
module CountingSorting {
  import opened Wrappers
  import opened SortSpec
  import opened BucketLayout

  /** The widest range `max - min + 1` counting sort accepts. */
  const MaxRange := 1000000

  const RangeError := "Rango de valores muy grande para Counting Sort"

  /** With bucket `x - min` every value of a list bounded by `min` and `max` has one of the
      `max - min + 1` buckets. */
  lemma OffsetKeysBelow(s: seq<int>, lo: int, hi: int)
    requires lo <= hi && forall i :: 0 <= i < |s| ==> lo <= s[i] <= hi
    ensures KeysBelow(s, Offset(lo), hi - lo + 1)
  {
  }

  /** Laying out the buckets `x - min` in order sorts the list. */
  lemma OffsetLayoutSorted(s: seq<int>, m: int, r: nat)
    requires KeysBelow(s, Offset(m), r)
    ensures SortedPermutation(Buckets(s, Offset(m), r), s)
  {
    BucketsPermutation(s, Offset(m), r);
    BucketsOrdered(s, Offset(m), r);
    var e := Buckets(s, Offset(m), r);
    forall i, j | 0 <= i < j < |e| ensures e[i] <= e[j] {
      assert Key(Offset(m), e[i]) <= Key(Offset(m), e[j]);
    }
  }

  /** `counting_sort`: `[]` for an empty list, the range error when
      `max - min + 1 > 1000000`, and otherwise the sorted list. */
  method CountingSort(input: seq<int>) returns (r: Result<seq<int>, string>)
    ensures r.Failure? <==> input != [] && Max(input) - Min(input) + 1 > MaxRange
    ensures r.Failure? ==> r.error == RangeError
    ensures r.Success? ==> SortedPermutation(r.value, input)
  {
    if |input| == 0 {
      return Success([]);
    }
    var arr := input;
    var minVal := Min(arr);
    var maxVal := Max(arr);
    var rangeSize := maxVal - minVal + 1;
    if rangeSize > MaxRange {
      return Failure(RangeError);
    }
    OffsetKeysBelow(arr, minVal, maxVal);
    var output := CountingPass(arr, Offset(minVal), rangeSize);
    OffsetLayoutSorted(arr, minVal, rangeSize);
    r := Success(output);
  }
}
