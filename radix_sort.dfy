/**
 * `radix_sort`: shift the values by `-min` when some are negative, run one stable
 * counting pass per decimal digit from the units digit up while `max // exp > 0`, and
 * shift back.
 */
module RadixSorting {
  import opened SortSpec
  import opened BucketLayout
  import opened ComparisonSorts

  /** `exp` at pass `place`: `10 ** place`. */
  function Pow10(place: nat): (e: nat)
    ensures e >= 1
  {
    if place == 0 then 1 else 10 * Pow10(place - 1)
  }

  // ---------------------------------------------------------------------------
  // Decimal arithmetic
  // ---------------------------------------------------------------------------

  /** Integer division has only one quotient. */
  lemma DivUnique(x: int, d: int, q: int, r: int)
    requires d > 0 && x == d * q + r && 0 <= r < d
    ensures x / d == q
  {
    var q', r' := x / d, x % d;
    assert x == d * q' + r' && 0 <= r' < d;
    if q' > q {
      assert d * (q' - q) == r - r';
      MulAtLeast(d, q' - q);
    } else if q' < q {
      assert d * (q - q') == r' - r;
      MulAtLeast(d, q - q');
    }
  }

  /** A positive multiple of `d` is at least `d`. */
  lemma {:induction false} MulAtLeast(d: int, k: int)
    requires d > 0 && k > 0
    ensures d * k >= d
    decreases k
  {
    if k > 1 {
      MulAtLeast(d, k - 1);
      assert d * k == d * (k - 1) + d;
    }
  }

  lemma DivDiv(x: int, p: int)
    requires x >= 0 && p >= 1
    ensures (x / 10) / p == x / (10 * p)
  {
    var q, r0 := x / 10, x % 10;
    var u, r1 := q / p, q % p;
    assert x == 10 * q + r0 && q == p * u + r1;
    assert x == (10 * p) * u + (10 * r1 + r0);
    DivUnique(x, 10 * p, u, 10 * r1 + r0);
  }

  /** The digit the radix pass computes, `(x // exp) % 10`, is the digit at `place`. */
  lemma {:induction false} DigitOfQuotient(x: int, place: nat)
    requires x >= 0
    ensures (x / Pow10(place)) % 10 == DigitAt(x, place)
  {
    if place > 0 {
      DigitOfQuotient(x / 10, place - 1);
      DivDiv(x, Pow10(place - 1));
    }
  }

  /** `max_val // exp > 0` exactly when `exp` does not exceed `max_val`. */
  lemma QuotientPositive(m: int, e: int)
    requires m >= 0 && e >= 1
    ensures (m / e > 0) <==> e <= m
  {
    if e > m {
      DivUnique(m, e, 0, m);
    } else {
      var q, r := m / e, m % e;
      assert m == e * q + r && e * q > 0;
    }
  }

  // ---------------------------------------------------------------------------
  // The order after `place` passes
  // ---------------------------------------------------------------------------

  /** The number formed by the low `d` decimal digits of `x`, i.e. `x % 10 ** d`. */
  function Low(x: int, d: nat): int
    decreases d
  {
    if d == 0 then 0 else 10 * Low(x / 10, d - 1) + x % 10
  }

  /** Comparing the low `d + 1` digits compares the digit at `d` first and the low `d`
      digits on a tie. */
  lemma {:induction false} LowStep(x: int, y: int, d: nat)
    ensures (Low(x, d + 1) <= Low(y, d + 1)) <==>
            (DigitAt(x, d) < DigitAt(y, d) || (DigitAt(x, d) == DigitAt(y, d) && Low(x, d) <= Low(y, d)))
    decreases d
  {
    if d > 0 {
      LowStep(x / 10, y / 10, d - 1);
      LowStep(y / 10, x / 10, d - 1);
    }
  }

  /** A value below `10 ** d` is its own low `d` digits. */
  lemma {:induction false} LowOfSmall(x: int, d: nat)
    requires 0 <= x < Pow10(d)
    ensures Low(x, d) == x
  {
    if d > 0 {
      LowOfSmall(x / 10, d - 1);
    }
  }

  /** `s` is in order by its low `d` digits. */
  predicate LowSorted(s: seq<int>, d: nat) {
    forall p, q :: 0 <= p < q < |s| ==> Low(s[p], d) <= Low(s[q], d)
  }

  /** Every value a filter keeps comes from the filtered list. */
  lemma {:induction false} FilterFrom(s: seq<int>, key: BucketKey, b: int, t: nat)
    requires t < |Filter(s, key, b)|
    ensures exists i :: 0 <= i < |s| && s[i] == Filter(s, key, b)[t]
    decreases |s|
  {
    var s' := s[..|s| - 1];
    if t < |Filter(s', key, b)| {
      FilterFrom(s', key, b, t);
      var i :| 0 <= i < |s'| && s'[i] == Filter(s', key, b)[t];
      assert s[i] == s'[i];
    } else {
      assert Filter(s, key, b)[t] == s[|s| - 1];
    }
  }

  /** A bucket keeps the order of the list it is taken from: the counting pass is stable. */
  lemma {:induction false} FilterLowSorted(s: seq<int>, key: BucketKey, b: int, d: nat)
    requires LowSorted(s, d)
    ensures LowSorted(Filter(s, key, b), d)
    decreases |s|
  {
    if s != [] {
      var s', last := s[..|s| - 1], s[|s| - 1];
      assert LowSorted(s', d) by {
        forall p, q | 0 <= p < q < |s'| ensures Low(s'[p], d) <= Low(s'[q], d) {
          assert s'[p] == s[p] && s'[q] == s[q];
        }
      }
      FilterLowSorted(s', key, b, d);
      var f' := Filter(s', key, b);
      if Key(key, last) == b {
        forall t | 0 <= t < |f'| ensures Low(f'[t], d) <= Low(last, d) {
          FilterFrom(s', key, b, t);
          var i :| 0 <= i < |s'| && s'[i] == f'[t];
          assert s[i] == s'[i];
        }
        var f := f' + [last];
        forall p, q | 0 <= p < q < |f| ensures Low(f[p], d) <= Low(f[q], d) {
          if q < |f'| {
            assert f[p] == f'[p] && f[q] == f'[q];
          } else {
            assert f[p] == f'[p] && f[q] == last;
          }
        }
      }
    }
  }

  /** Two values of the same bucket keep their relative order through a digit pass. */
  lemma SameBucketPair(s: seq<int>, d: nat, p: nat, q: nat)
    requires LowSorted(s, d) && p < q < |Buckets(s, Digit(d), 10)|
    requires DigitAt(Buckets(s, Digit(d), 10)[p], d) == DigitAt(Buckets(s, Digit(d), 10)[q], d)
    ensures Low(Buckets(s, Digit(d), 10)[p], d) <= Low(Buckets(s, Digit(d), 10)[q], d)
  {
    var key := Digit(d);
    var e := Buckets(s, key, 10);
    var b := Key(key, e[p]);
    PositionInBucket(s, key, 10, p);
    PositionInBucket(s, key, 10, q);
    var f := Filter(s, key, b);
    var tp, tq := p - Start(s, key, b), q - Start(s, key, b);
    BucketAt(s, key, b, 10, tp);
    BucketAt(s, key, b, 10, tq);
    assert Low(f[tp], d) <= Low(f[tq], d) by {
      FilterLowSorted(s, key, b, d);
    }
  }

  /** Two positions of the output of a digit pass are in order by the low `d + 1` digits. */
  lemma RadixPair(s: seq<int>, d: nat, p: nat, q: nat)
    requires LowSorted(s, d) && p < q < |Buckets(s, Digit(d), 10)|
    ensures Low(Buckets(s, Digit(d), 10)[p], d + 1) <= Low(Buckets(s, Digit(d), 10)[q], d + 1)
  {
    var e := Buckets(s, Digit(d), 10);
    BucketsOrdered(s, Digit(d), 10);
    assert Key(Digit(d), e[p]) <= Key(Digit(d), e[q]);
    LowStep(e[p], e[q], d);
    if DigitAt(e[p], d) == DigitAt(e[q], d) {
      SameBucketPair(s, d, p, q);
    }
  }

  /** A digit pass over a list in order by its low `d` digits leaves it in order by its low
      `d + 1` digits. */
  lemma RadixPassSorted(s: seq<int>, d: nat)
    requires LowSorted(s, d)
    ensures LowSorted(Buckets(s, Digit(d), 10), d + 1)
  {
    forall p, q | 0 <= p < q < |Buckets(s, Digit(d), 10)|
      ensures Low(Buckets(s, Digit(d), 10)[p], d + 1) <= Low(Buckets(s, Digit(d), 10)[q], d + 1)
    {
      RadixPair(s, d, p, q);
    }
  }

  // ---------------------------------------------------------------------------
  // The sort
  // ---------------------------------------------------------------------------

  /** `counting_sort_for_radix(arr, exp)`: one stable counting pass on the digit at `place`
      into a new list, copied back into `arr`. */
  method CountingSortForRadix(arr: array<int>, exp: int, place: nat)
    requires exp == Pow10(place)
    modifies arr
    ensures arr[..] == Buckets(old(arr[..]), Digit(place), 10)
  {
    ghost var s := arr[..];
    var output := CountingPass(arr[..], Digit(place), 10);
    BucketsLength(s, Digit(place), 10);
    for i := 0 to arr.Length
      invariant forall k :: 0 <= k < i ==> arr[k] == output[k]
    {
      arr[i] := output[i];
    }
  }

  /** Once every value is below `10 ** place`, the order by the low `place` digits is the
      order of the values. */
  lemma LowSortedIsSorted(sorted: seq<int>, shifted: seq<int>, maxVal: int, place: nat)
    requires LowSorted(sorted, place) && multiset(sorted) == multiset(shifted)
    requires AllWithin(shifted, 0, maxVal) && maxVal < Pow10(place)
    ensures SortedPermutation(sorted, shifted)
  {
    PermutationWithin(shifted, sorted, 0, maxVal);
    forall p, q | 0 <= p < q < |sorted| ensures sorted[p] <= sorted[q] {
      LowOfSmall(sorted[p], place);
      LowOfSmall(sorted[q], place);
    }
  }

  /** Shifting the sorted shifted list back sorts the original list. */
  lemma ShiftBack(input: seq<int>, sorted: seq<int>, m: int)
    requires SortedPermutation(sorted, Shift(input, -m))
    ensures SortedPermutation(Shift(sorted, m), input)
  {
    ShiftSortedRoundTrip(sorted, m);
    ShiftPermutation(sorted, Shift(input, -m), m);
    ShiftSortedRoundTrip(input, -m);
  }

  /** One turn of the loop of `radix_sort`: a counting pass on the digit at `place`, after
      which the values are in order by their low `place + 1` digits. */
  method RadixPass(arr: array<int>, exp: int, place: nat, ghost shifted: seq<int>)
    requires exp == Pow10(place)
    requires multiset(arr[..]) == multiset(shifted) && LowSorted(arr[..], place)
    modifies arr
    ensures multiset(arr[..]) == multiset(shifted) && LowSorted(arr[..], place + 1)
  {
    ghost var before := arr[..];
    CountingSortForRadix(arr, exp, place);
    BucketsPermutation(before, Digit(place), 10);
    RadixPassSorted(before, place);
  }

  /** The values shifted by `-min` lie between 0 and the maximum of the shifted list. */
  lemma ShiftedWithin(input: seq<int>, shifted: seq<int>)
    requires input != []
    requires shifted == if Min(input) < 0 then Shift(input, -Min(input)) else input
    ensures shifted != [] && AllWithin(shifted, 0, Max(shifted))
  {
  }

  /** `radix_sort`: `[]` for an empty list, otherwise the sorted list. */
  method RadixSort(input: seq<int>) returns (result: seq<int>)
    ensures SortedPermutation(result, input)
  {
    if |input| == 0 {
      return [];
    }
    var minVal := Min(input);
    var shifted := if minVal < 0 then Shift(input, -minVal) else input;
    var arr := Copy(shifted);
    var maxVal := Max(arr[..]);
    ShiftedWithin(input, shifted);
    var exp, place := 1, 0;
    while maxVal / exp > 0
      invariant exp == Pow10(place)
      invariant multiset(arr[..]) == multiset(shifted)
      invariant LowSorted(arr[..], place)
      decreases maxVal - exp
    {
      QuotientPositive(maxVal, exp);
      RadixPass(arr, exp, place, shifted);
      exp := exp * 10;
      place := place + 1;
    }
    QuotientPositive(maxVal, exp);
    var sorted := arr[..];
    LowSortedIsSorted(sorted, shifted, maxVal, place);
    if minVal < 0 {
      result := Shift(sorted, minVal);
      ShiftBack(input, sorted, minVal);
    } else {
      result := sorted;
    }
  }
}
