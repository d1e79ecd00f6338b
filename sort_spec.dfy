/** What a sorting algorithm promises: its result is in non-decreasing order and holds
    the same elements as its input, each as many times. */
module SortSpec {

  predicate Sorted(s: seq<int>) {
    forall i, j :: 0 <= i < j < |s| ==> s[i] <= s[j]
  }

  /** The result of sorting `input`. */
  predicate SortedPermutation(result: seq<int>, input: seq<int>) {
    Sorted(result) && multiset(result) == multiset(input)
  }

  /** The first element of a sorted run is its least element. */
  lemma SortedHeadIsLeast(a: seq<int>, x: int)
    requires Sorted(a) && x in multiset(a)
    ensures a[0] <= x
  {
    var k :| 0 <= k < |a| && a[k] == x;
  }

  /** A prefix one longer holds one more value. */
  lemma PrefixStep(s: seq<int>, i: int)
    requires 0 <= i < |s|
    ensures multiset(s[..i + 1]) == multiset(s[..i]) + multiset{s[i]}
  {
    assert s[..i + 1] == s[..i] + [s[i]];
  }

  lemma MultisetSplit(s: seq<int>, i: int)
    requires 0 <= i <= |s|
    ensures multiset(s) == multiset(s[..i]) + multiset(s[i..])
  {
    assert s == s[..i] + s[i..];
  }

  /** Removing the first element removes one occurrence of it from the multiset. */
  lemma DropHead(a: seq<int>)
    requires a != []
    ensures multiset(a[1..]) == multiset(a) - multiset{a[0]}
  {
    assert a == [a[0]] + a[1..];
  }

  lemma SortedTail(a: seq<int>)
    requires Sorted(a) && a != []
    ensures Sorted(a[1..])
  {
    assert forall i :: 0 <= i < |a| - 1 ==> a[1..][i] == a[i + 1];
  }

  /** There is only one sorted arrangement of a multiset of integers, so every correct
      sorting algorithm returns the same list. */
  lemma {:induction false} SortedPermutationUnique(a: seq<int>, b: seq<int>)
    requires Sorted(a) && Sorted(b) && multiset(a) == multiset(b)
    ensures a == b
    decreases |a|
  {
    assert |a| == |multiset(a)| == |multiset(b)| == |b|;
    if a != [] {
      SortedHeadIsLeast(a, b[0]);
      SortedHeadIsLeast(b, a[0]);
      assert a[0] == b[0];
      DropHead(a);
      DropHead(b);
      SortedTail(a);
      SortedTail(b);
      SortedPermutationUnique(a[1..], b[1..]);
      forall i | 0 < i < |a| ensures a[i] == b[i] {
        assert a[i] == a[1..][i - 1] && b[i] == b[1..][i - 1];
      }
    }
  }

  /** Every element of `s` lies in `[lo, hi]`. */
  predicate AllWithin(s: seq<int>, lo: int, hi: int) {
    forall i :: 0 <= i < |s| ==> lo <= s[i] <= hi
  }

  /** Rearranging elements keeps them within the same bounds. */
  lemma PermutationWithin(s: seq<int>, t: seq<int>, lo: int, hi: int)
    requires multiset(s) == multiset(t) && AllWithin(s, lo, hi)
    ensures AllWithin(t, lo, hi)
  {
    forall i | 0 <= i < |t| ensures lo <= t[i] <= hi {
      assert t[i] in multiset(s);
    }
  }

  /** Every element of `s` is at most `hi`. */
  predicate AllAtMost(s: seq<int>, hi: int) {
    forall i :: 0 <= i < |s| ==> s[i] <= hi
  }

  /** Every element of `s` is greater than `lo`. */
  predicate AllAbove(s: seq<int>, lo: int) {
    forall i :: 0 <= i < |s| ==> lo < s[i]
  }

  lemma PermutationAtMost(s: seq<int>, t: seq<int>, hi: int)
    requires multiset(s) == multiset(t) && AllAtMost(s, hi)
    ensures AllAtMost(t, hi)
  {
    forall i | 0 <= i < |t| ensures t[i] <= hi {
      assert t[i] in multiset(s);
    }
  }

  lemma PermutationAbove(s: seq<int>, t: seq<int>, lo: int)
    requires multiset(s) == multiset(t) && AllAbove(s, lo)
    ensures AllAbove(t, lo)
  {
    forall i | 0 <= i < |t| ensures lo < t[i] {
      assert t[i] in multiset(s);
    }
  }

  /** Two sorted runs, the first bounded above by the second, make a sorted run. */
  lemma SortedConcat(a: seq<int>, b: seq<int>)
    requires Sorted(a) && Sorted(b)
    requires forall i, j :: 0 <= i < |a| && 0 <= j < |b| ==> a[i] <= b[j]
    ensures Sorted(a + b)
  {
  }

  /** Adding `c` to every element. */
  function Shift(s: seq<int>, c: int): (r: seq<int>)
    ensures |r| == |s| && forall i :: 0 <= i < |s| ==> r[i] == s[i] + c
  {
    seq(|s|, i requires 0 <= i < |s| => s[i] + c)
  }

  lemma {:induction false} ShiftAppend(a: seq<int>, b: seq<int>, c: int)
    ensures Shift(a + b, c) == Shift(a, c) + Shift(b, c)
  {
  }

  /** Shifting two arrangements of the same elements gives two arrangements of the same
      elements. */
  lemma {:induction false} ShiftPermutation(a: seq<int>, b: seq<int>, c: int)
    requires multiset(a) == multiset(b)
    ensures multiset(Shift(a, c)) == multiset(Shift(b, c))
    decreases |a|
  {
    if a == [] {
      assert |b| == |multiset(b)| == 0;
    } else {
      assert a[0] in multiset(b);
      var k :| 0 <= k < |b| && b[k] == a[0];
      var rest := b[..k] + b[k + 1..];
      assert b == b[..k] + [b[k]] + b[k + 1..];
      assert a == [a[0]] + a[1..];
      assert multiset(b) == multiset(b[..k]) + multiset{b[k]} + multiset(b[k + 1..]);
      DropHead(a);
      assert multiset(a[1..]) == multiset(rest);
      ShiftPermutation(a[1..], rest, c);
      ShiftAppend([a[0]], a[1..], c);
      ShiftAppend(b[..k] + [b[k]], b[k + 1..], c);
      ShiftAppend(b[..k], [b[k]], c);
      ShiftAppend(b[..k], b[k + 1..], c);
    }
  }

  /** Shifting keeps the order, and shifting back undoes it. */
  lemma ShiftSortedRoundTrip(s: seq<int>, c: int)
    ensures Sorted(s) ==> Sorted(Shift(s, c))
    ensures Shift(Shift(s, c), -c) == s
  {
  }

  /** Python's `min` of a non-empty list. */
  function Min(s: seq<int>): (m: int)
    requires s != []
    ensures m in s && forall i :: 0 <= i < |s| ==> m <= s[i]
  {
    if |s| == 1 then s[0]
    else
      var m := Min(s[1..]);
      assert forall i :: 1 <= i < |s| ==> s[i] == s[1..][i - 1];
      if s[0] <= m then s[0] else m
  }

  /** Python's `max` of a non-empty list. */
  function Max(s: seq<int>): (m: int)
    requires s != []
    ensures m in s && forall i :: 0 <= i < |s| ==> s[i] <= m
  {
    if |s| == 1 then s[0]
    else
      var m := Max(s[1..]);
      assert forall i :: 1 <= i < |s| ==> s[i] == s[1..][i - 1];
      if s[0] >= m then s[0] else m
  }
}
