/**
 * The stable counting pass that `counting_sort` and `counting_sort_for_radix`
 * both perform: count the values of each bucket, turn the counts into end
 * positions by prefix sums, then walk the input backwards and drop each value
 * into the last free slot of its bucket. What it produces is specified as the
 * buckets laid out one after the other, each bucket keeping input order.
 */
module BucketLayout {
  import opened SortSpec

  /** How a value is assigned its bucket: `num - min_val` in counting sort, the decimal
      digit at `place` (`(x // exp) % 10` with `exp == 10 ** place`) in one pass of radix
      sort. */
  datatype BucketKey = Offset(min: int) | Digit(place: nat)

  function Key(k: BucketKey, x: int): int {
    match k
    case Offset(m) => x - m
    case Digit(place) => DigitAt(x, place)
  }

  /** The decimal digit of `x` at `place`, counting from the units digit. */
  function DigitAt(x: int, place: nat): (d: int)
    ensures 0 <= d < 10
    decreases place
  {
    if place == 0 then x % 10 else DigitAt(x / 10, place - 1)
  }

  /** Every value of `s` falls in one of the buckets `0 .. r-1`. */
  predicate KeysBelow(s: seq<int>, key: BucketKey, r: nat) {
    forall i :: 0 <= i < |s| ==> 0 <= Key(key, s[i]) < r
  }

  /** The values of `s` in bucket `b`, in their order in `s`. */
  function Filter(s: seq<int>, key: BucketKey, b: int): seq<int> {
    if s == [] then []
    else
      var last := s[|s| - 1];
      Filter(s[..|s| - 1], key, b) + (if Key(key, last) == b then [last] else [])
  }

  /** Buckets `0 .. c-1` of `s`, one after the other. */
  function Buckets(s: seq<int>, key: BucketKey, c: nat): seq<int> {
    if c == 0 then [] else Buckets(s, key, c - 1) + Filter(s, key, c - 1)
  }

  /** The position in the output at which bucket `b` starts. */
  function Start(s: seq<int>, key: BucketKey, b: nat): nat {
    |Buckets(s, key, b)|
  }

  // ---------------------------------------------------------------------------
  // Filters
  // ---------------------------------------------------------------------------

  /** Every value a filter keeps lies in its bucket. */
  lemma {:induction false} FilterKey(s: seq<int>, key: BucketKey, b: int, t: nat)
    requires t < |Filter(s, key, b)|
    ensures Key(key, Filter(s, key, b)[t]) == b
    decreases |s|
  {
    var s' := s[..|s| - 1];
    if t < |Filter(s', key, b)| {
      FilterKey(s', key, b, t);
    }
  }

  lemma FilterSnoc(s: seq<int>, x: int, key: BucketKey, b: int)
    ensures Filter(s + [x], key, b) == Filter(s, key, b) + (if Key(key, x) == b then [x] else [])
  {
    assert (s + [x])[..|s|] == s;
  }

  lemma {:induction false} FilterAppend(a: seq<int>, c: seq<int>, key: BucketKey, b: int)
    ensures Filter(a + c, key, b) == Filter(a, key, b) + Filter(c, key, b)
    decreases |c|
  {
    if c == [] {
      assert a + c == a;
    } else {
      var c' := c[..|c| - 1];
      var x := c[|c| - 1];
      assert a + c == (a + c') + [x];
      assert c == c' + [x];
      FilterSnoc(a + c', x, key, b);
      FilterSnoc(c', x, key, b);
      FilterAppend(a, c', key, b);
    }
  }

  /** The prefix `s[..i+1]` has one more value in the bucket of `s[i]` than `s[..i]`, and
      the same number in every other bucket. */
  lemma FilterStep(s: seq<int>, i: nat, key: BucketKey, b: int)
    requires i < |s|
    ensures Filter(s[..i + 1], key, b) ==
            Filter(s[..i], key, b) + (if Key(key, s[i]) == b then [s[i]] else [])
  {
    assert s[..i + 1] == s[..i] + [s[i]];
    FilterSnoc(s[..i], s[i], key, b);
  }

  // ---------------------------------------------------------------------------
  // The layout of the buckets
  // ---------------------------------------------------------------------------

  /** Every value of the first `c` buckets lies in one of them. */
  lemma {:induction false} BucketsKey(s: seq<int>, key: BucketKey, c: nat, t: nat)
    requires t < |Buckets(s, key, c)|
    ensures 0 <= Key(key, Buckets(s, key, c)[t]) < c
    decreases c, 1
  {
    if c > 0 {
      BucketsKeyStep(s, key, c - 1, t);
    }
  }

  lemma {:induction false} BucketsKeyStep(s: seq<int>, key: BucketKey, d: nat, t: nat)
    requires t < |Buckets(s, key, d + 1)|
    ensures 0 <= Key(key, Buckets(s, key, d + 1)[t]) < d + 1
    decreases d + 1, 0
  {
    var before := Buckets(s, key, d);
    if t < |before| {
      BucketsKey(s, key, d, t);
    } else {
      FilterKey(s, key, d, t - |before|);
    }
  }

  lemma {:induction false} BucketsPrefix(s: seq<int>, key: BucketKey, c: nat, r: nat)
    requires c <= r
    ensures Buckets(s, key, c) <= Buckets(s, key, r)
    decreases r - c
  {
    if c < r {
      BucketsPrefix(s, key, c, r - 1);
    }
  }

  /** Value `t` of bucket `b` sits at position `Start(b) + t`. */
  lemma BucketAt(s: seq<int>, key: BucketKey, b: nat, r: nat, t: nat)
    requires b < r && t < |Filter(s, key, b)|
    ensures Start(s, key, b) + t < |Buckets(s, key, r)|
    ensures Buckets(s, key, r)[Start(s, key, b) + t] == Filter(s, key, b)[t]
  {
    BucketsPrefix(s, key, b + 1, r);
    assert Buckets(s, key, b + 1)[Start(s, key, b) + t] == Filter(s, key, b)[t];
  }

  /** Every output position lies inside the region of its own bucket. */
  lemma {:induction false} PositionInBucket(s: seq<int>, key: BucketKey, r: nat, p: nat)
    requires p < |Buckets(s, key, r)|
    ensures var b := Key(key, Buckets(s, key, r)[p]);
            0 <= b < r && Start(s, key, b) <= p < Start(s, key, b) + |Filter(s, key, b)|
    decreases r, 1
  {
    if r > 0 {
      PositionInBucketStep(s, key, r - 1, p);
    }
  }

  lemma {:induction false} PositionInBucketStep(s: seq<int>, key: BucketKey, d: nat, p: nat)
    requires p < |Buckets(s, key, d + 1)|
    ensures var b := Key(key, Buckets(s, key, d + 1)[p]);
            0 <= b < d + 1 && Start(s, key, b) <= p < Start(s, key, b) + |Filter(s, key, b)|
    decreases d + 1, 0
  {
    var before, f := Buckets(s, key, d), Filter(s, key, d);
    assert Buckets(s, key, d + 1) == before + f;
    if p < |before| {
      PositionInBucket(s, key, d, p);
    } else {
      FilterKey(s, key, d, p - |before|);
    }
  }

  /** Bucket indices never decrease along `e`. */
  predicate KeysOrdered(e: seq<int>, key: BucketKey) {
    forall i, j :: 0 <= i < j < |e| ==> Key(key, e[i]) <= Key(key, e[j])
  }

  /** Bucket indices never decrease along the output. */
  lemma {:induction false} BucketsOrdered(s: seq<int>, key: BucketKey, r: nat)
    ensures KeysOrdered(Buckets(s, key, r), key)
  {
    if r > 0 {
      BucketsOrdered(s, key, r - 1);
      var before, f := Buckets(s, key, r - 1), Filter(s, key, r - 1);
      var e := before + f;
      forall t | 0 <= t < |before| ensures Key(key, before[t]) < r - 1 {
        BucketsKey(s, key, r - 1, t);
      }
      forall t | 0 <= t < |f| ensures Key(key, f[t]) == r - 1 {
        FilterKey(s, key, r - 1, t);
      }
      forall i, j | 0 <= i < j < |e| ensures Key(key, e[i]) <= Key(key, e[j]) {
        if j < |before| {
          assert e[i] == before[i] && e[j] == before[j];
        } else if i < |before| {
          assert e[i] == before[i] && e[j] == f[j - |before|];
          assert Key(key, before[i]) < r - 1;
        } else {
          assert e[i] == f[i - |before|] && e[j] == f[j - |before|];
        }
      }
    }
  }

  /** The buckets hold the values of `s` whose bucket is below `c`. */
  lemma {:induction false} BucketsSnoc(s: seq<int>, x: int, key: BucketKey, c: nat)
    decreases c, 1
    ensures 0 <= Key(key, x) < c ==>
            multiset(Buckets(s + [x], key, c)) == multiset(Buckets(s, key, c)) + multiset{x}
    ensures !(0 <= Key(key, x) < c) ==> multiset(Buckets(s + [x], key, c)) == multiset(Buckets(s, key, c))
  {
    if c > 0 {
      BucketsSnocStep(s, x, key, c - 1);
    }
  }

  /** The step from bucket count `d` to `d + 1`. */
  lemma {:induction false} BucketsSnocStep(s: seq<int>, x: int, key: BucketKey, d: nat)
    ensures 0 <= Key(key, x) < d + 1 ==>
            multiset(Buckets(s + [x], key, d + 1)) == multiset(Buckets(s, key, d + 1)) + multiset{x}
    ensures !(0 <= Key(key, x) < d + 1) ==>
            multiset(Buckets(s + [x], key, d + 1)) == multiset(Buckets(s, key, d + 1))
    decreases d + 1, 0
  {
    BucketsSnoc(s, x, key, d);
    FilterSnoc(s, x, key, d);
    SnocCombine(Buckets(s + [x], key, d), Buckets(s, key, d), Filter(s + [x], key, d), Filter(s, key, d), x,
                0 <= Key(key, x) < d, Key(key, x) == d);
  }

  /** Appending the filtered part to the lower buckets, before and after `x` joins. */
  lemma SnocCombine(a: seq<int>, a': seq<int>, f: seq<int>, f': seq<int>, x: int, inA: bool, inF: bool)
    requires !(inA && inF)
    requires inA ==> multiset(a) == multiset(a') + multiset{x}
    requires !inA ==> multiset(a) == multiset(a')
    requires f == f' + (if inF then [x] else [])
    ensures inA || inF ==> multiset(a + f) == multiset(a' + f') + multiset{x}
    ensures !(inA || inF) ==> multiset(a + f) == multiset(a' + f')
  {
  }

  /** When every value has a bucket, the buckets are a rearrangement of the input. */
  lemma {:induction false} BucketsPermutation(s: seq<int>, key: BucketKey, r: nat)
    requires KeysBelow(s, key, r)
    ensures multiset(Buckets(s, key, r)) == multiset(s)
    ensures |Buckets(s, key, r)| == |s|
    decreases |s|
  {
    if s == [] {
      BucketsEmpty(key, r);
    } else {
      var s', x := s[..|s| - 1], s[|s| - 1];
      assert s == s' + [x];
      BucketsPermutation(s', key, r);
      BucketsSnoc(s', x, key, r);
    }
    assert |Buckets(s, key, r)| == |multiset(Buckets(s, key, r))|;
  }

  lemma BucketsLength(s: seq<int>, key: BucketKey, r: nat)
    requires KeysBelow(s, key, r)
    ensures |Buckets(s, key, r)| == |s|
  {
    BucketsPermutation(s, key, r);
  }

  lemma {:induction false} BucketsEmpty(key: BucketKey, c: nat)
    ensures Buckets([], key, c) == []
  {
    if c > 0 {
      BucketsEmpty(key, c - 1);
    }
  }

  // ---------------------------------------------------------------------------
  // The counting pass
  // ---------------------------------------------------------------------------

  /** Where the backward walk drops `s[i]`: after the values of its bucket that come
      before it in `s`. */
  lemma PlaceTarget(s: seq<int>, key: BucketKey, r: nat, i: nat)
    requires KeysBelow(s, key, r) && i < |s|
    ensures var b := Key(key, s[i]);
            var q := Start(s, key, b) + |Filter(s[..i], key, b)|;
            q < |Buckets(s, key, r)| && Buckets(s, key, r)[q] == s[i]
  {
    var b := Key(key, s[i]);
    FilterStep(s, i, key, b);
    assert s == s[..i + 1] + s[i + 1..];
    FilterAppend(s[..i + 1], s[i + 1..], key, b);
    BucketAt(s, key, b, r, |Filter(s[..i], key, b)|);
    BucketsPermutation(s, key, r);
  }

  /** How many values of `s` fall in each of the buckets `0 .. r-1`. */
  function Counts(s: seq<int>, key: BucketKey, r: nat): (c: seq<int>)
    ensures |c| == r
  {
    seq(r, b requires 0 <= b < r => |Filter(s, key, b)|)
  }

  /** Counting `s[i]`, whose bucket is `b`, raises that bucket's count by one. */
  lemma CountsStep(s: seq<int>, key: BucketKey, r: nat, i: nat, b: int)
    requires i < |s| && b == Key(key, s[i]) && 0 <= b < r
    ensures Counts(s[..i + 1], key, r) == Counts(s[..i], key, r)[b := Counts(s[..i], key, r)[b] + 1]
  {
    var before, after := Counts(s[..i], key, r), Counts(s[..i + 1], key, r);
    forall c | 0 <= c < r ensures after[c] == before[b := before[b] + 1][c] {
      FilterStep(s, i, key, c);
    }
  }

  /** `a[i] := v`, its effect stated on the whole contents of `a`. */
  method Store(a: array<int>, i: int, v: int)
    requires 0 <= i < a.Length
    modifies a
    ensures a[..] == old(a[..])[i := v]
  {
    a[i] := v;
  }

  /** The first loop: `count[key] += 1` for every value. */
  method CountKeys(s: seq<int>, key: BucketKey, r: nat) returns (count: array<int>)
    requires KeysBelow(s, key, r)
    ensures fresh(count) && count[..] == Counts(s, key, r)
  {
    count := new int[r](_ => 0);
    assert s[..0] == [];
    assert count[..] == Counts(s[..0], key, r);
    for i := 0 to |s|
      invariant count.Length == r && count[..] == Counts(s[..i], key, r)
    {
      var b := Key(key, s[i]);
      CountsStep(s, key, r, i, b);
      Store(count, b, count[b] + 1);
    }
    assert s[..|s|] == s;
  }

  /** The counts once the first `i` of them have been turned into bucket ends. */
  function PartialSums(s: seq<int>, key: BucketKey, r: nat, i: nat): (c: seq<int>)
    ensures |c| == r
  {
    seq(r, b requires 0 <= b < r => if b < i then Start(s, key, b + 1) else |Filter(s, key, b)|)
  }

  /** The first bucket ends where its count says. */
  lemma PartialSumsInit(s: seq<int>, key: BucketKey, r: nat)
    ensures Counts(s, key, r) == PartialSums(s, key, r, 1)
  {
    assert Buckets(s, key, 1) == Buckets(s, key, 0) + Filter(s, key, 0);
  }

  /** Adding the end of bucket `j` to the count of bucket `j + 1` gives the end of bucket
      `j + 1`. */
  lemma PartialSumsStep(s: seq<int>, key: BucketKey, r: nat, j: nat)
    requires j + 1 < r
    ensures PartialSums(s, key, r, j + 2) ==
            PartialSums(s, key, r, j + 1)[j + 1 := PartialSums(s, key, r, j + 1)[j + 1] +
                                                   PartialSums(s, key, r, j + 1)[j]]
  {
    assert Buckets(s, key, j + 2) == Buckets(s, key, j + 1) + Filter(s, key, j + 1);
  }

  /** Once every count has been turned, the list holds the end of every bucket. */
  lemma PartialSumsDone(s: seq<int>, key: BucketKey, r: nat, i: nat)
    requires r <= i
    ensures PartialSums(s, key, r, i) == BucketEnds(s, key, r, |s|)
  {
    assert s[..|s|] == s;
    forall b | 0 <= b < r ensures PartialSums(s, key, r, i)[b] == BucketEnds(s, key, r, |s|)[b] {
      assert Buckets(s, key, b + 1) == Buckets(s, key, b) + Filter(s, key, b);
    }
  }

  /** The second loop: `count[i] += count[i - 1]` turns each count into the end of its
      bucket's region. */
  method PrefixSums(count: array<int>, ghost s: seq<int>, ghost key: BucketKey)
    requires count[..] == Counts(s, key, count.Length)
    modifies count
    ensures count[..] == BucketEnds(s, key, count.Length, |s|)
  {
    var r := count.Length;
    PartialSumsInit(s, key, r);
    var i := 1;
    while i < r
      invariant 1 <= i && (r == 0 || i <= r)
      invariant count[..] == PartialSums(s, key, r, i)
    {
      var j := i - 1;
      PartialSumsStep(s, key, r, j);
      Store(count, i, count[i] + count[j]);
      i := i + 1;
    }
    PartialSumsDone(s, key, r, i);
  }

  /** Where bucket `b` ends while the backward walk has still to place `s[..i]`. */
  function EndAt(s: seq<int>, key: BucketKey, i: nat, b: nat): int
    requires i <= |s|
  {
    Start(s, key, b) + |Filter(s[..i], key, b)|
  }

  /** The ends of buckets `0 .. r-1` while the walk has still to place `s[..i]`: what the
      list `count` holds at that point. */
  function BucketEnds(s: seq<int>, key: BucketKey, r: nat, i: nat): (c: seq<int>)
    requires i <= |s|
    ensures |c| == r
  {
    seq(r, b requires 0 <= b < r => EndAt(s, key, i, b))
  }

  /** What slot `p` of the output holds once the bucket ends are `ends`: its final value
      `e[p]` when it lies at or past the end of its bucket, the initial 0 otherwise. */
  function Slot(e: seq<int>, key: BucketKey, ends: seq<int>, p: nat): int
    requires p < |e|
  {
    var b := Key(key, e[p]);
    if 0 <= b < |ends| && ends[b] <= p then e[p] else 0
  }

  /** The first `n` slots of the output once the bucket ends are `ends`. */
  function Placed(e: seq<int>, key: BucketKey, ends: seq<int>, n: nat): (r: seq<int>)
    requires n <= |e|
    ensures |r| == n
  {
    seq(n, p requires 0 <= p < n => Slot(e, key, ends, p))
  }

  /** Taking `x == s[j]` out of the prefix still to place moves the end of its bucket `b`
      down by one and leaves the other ends alone. */
  lemma EndsStep(s: seq<int>, key: BucketKey, r: nat, j: nat, x: int, b: int)
    requires j < |s| && x == s[j] && b == Key(key, x) && 0 <= b < r
    ensures EndAt(s, key, j + 1, b) == EndAt(s, key, j, b) + 1
    ensures BucketEnds(s, key, r, j) == BucketEnds(s, key, r, j + 1)[b := EndAt(s, key, j, b)]
  {
    assert s[..j + 1] == s[..j] + [x];
    FilterSnoc(s[..j], x, key, b);
    var c, c' := BucketEnds(s, key, r, j + 1), BucketEnds(s, key, r, j);
    forall d | 0 <= d < r ensures c'[d] == c[b := EndAt(s, key, j, b)][d] {
      FilterSnoc(s[..j], x, key, d);
    }
  }

  /** Writing `x`, the value that belongs at slot `q`, and moving the end of its bucket `b`
      down to `q` is the same as recomputing the slots from the new ends. */
  lemma PlacedStep(e: seq<int>, key: BucketKey, ends: seq<int>, n: nat, q: int, x: int, b: int)
    requires n == |e| && 0 <= q < n && x == e[q] && b == Key(key, x)
    requires 0 <= b < |ends| && ends[b] == q + 1
    ensures Placed(e, key, ends[b := q], n) == Placed(e, key, ends, n)[q := x]
  {
    var ends' := ends[b := q];
    forall p | 0 <= p < n ensures Placed(e, key, ends', n)[p] == Placed(e, key, ends, n)[q := x][p] {
    }
  }

  /** One step of the backward walk: `x == s[j]`, the last value still to place, has a
      bucket `b`, goes to slot `q`, the slot just before its bucket's end, and afterwards
      the ends and the slots are those of the prefix `s[..j]`. */
  lemma WalkStep(s: seq<int>, key: BucketKey, e: seq<int>, r: nat, j: nat, x: int, b: int, q: int)
    requires e == Buckets(s, key, r) && KeysBelow(s, key, r)
    requires j < |s| && x == s[j] && b == Key(key, x)
    requires 0 <= b < r ==> q == BucketEnds(s, key, r, j + 1)[b] - 1
    ensures 0 <= b < r && 0 <= q < |s| == |e|
    ensures BucketEnds(s, key, r, j) == BucketEnds(s, key, r, j + 1)[b := q]
    ensures Placed(e, key, BucketEnds(s, key, r, j), |s|) ==
            Placed(e, key, BucketEnds(s, key, r, j + 1), |s|)[q := x]
  {
    EndsStep(s, key, r, j, x, b);
    PlaceTarget(s, key, r, j);
    BucketsLength(s, key, r);
    PlacedStep(e, key, BucketEnds(s, key, r, j + 1), |s|, q, x, b);
  }

  /** Before the walk no slot is claimed: every position lies below its bucket's end, so
      the slots are the initial zeros. */
  lemma PlacedInit(s: seq<int>, key: BucketKey, r: nat, out: seq<int>)
    requires |out| == |Buckets(s, key, r)|
    requires forall p :: 0 <= p < |out| ==> out[p] == 0
    ensures out == Placed(Buckets(s, key, r), key, BucketEnds(s, key, r, |s|), |out|)
  {
    var e, ends := Buckets(s, key, r), BucketEnds(s, key, r, |s|);
    assert s[..|s|] == s;
    forall p | 0 <= p < |out| ensures Placed(e, key, ends, |out|)[p] == out[p] {
      PositionInBucket(s, key, r, p);
    }
  }

  /** After the walk every bucket ends where it starts, so every slot holds its final
      value. */
  lemma PlacedDone(s: seq<int>, key: BucketKey, r: nat)
    requires KeysBelow(s, key, r)
    ensures |s| == |Buckets(s, key, r)|
    ensures Placed(Buckets(s, key, r), key, BucketEnds(s, key, r, 0), |s|) == Buckets(s, key, r)
  {
    var e, ends := Buckets(s, key, r), BucketEnds(s, key, r, 0);
    BucketsLength(s, key, r);
    assert s[..0] == [];
    forall p | 0 <= p < |s| ensures Placed(e, key, ends, |s|)[p] == e[p] {
      PositionInBucket(s, key, r, p);
    }
  }

  /** One step of the third loop: `s[j]` goes to the slot just before the end of its
      bucket, and that end moves down onto the slot. */
  method PlaceOne(s: seq<int>, key: BucketKey, ghost e: seq<int>, count: array<int>, out: array<int>, j: nat)
    requires e == Buckets(s, key, count.Length) && KeysBelow(s, key, count.Length)
    requires j < |s| == |e| == out.Length && out != count
    requires count[..] == BucketEnds(s, key, count.Length, j + 1)
    requires out[..] == Placed(e, key, BucketEnds(s, key, count.Length, j + 1), |s|)
    modifies count, out
    ensures count[..] == BucketEnds(s, key, count.Length, j)
    ensures out[..] == Placed(e, key, BucketEnds(s, key, count.Length, j), |s|)
  {
    var x := s[j];
    var b := Key(key, x);
    var q := count[b] - 1;
    WalkStep(s, key, e, count.Length, j, x, b, q);
    Store(out, q, x);
    Store(count, b, q);
  }

  /** The third loop: walking the input backwards, each value goes to the slot just before
      its bucket's current end, and that end moves down by one. */
  method Place(s: seq<int>, key: BucketKey, count: array<int>) returns (output: seq<int>)
    requires KeysBelow(s, key, count.Length)
    requires count[..] == BucketEnds(s, key, count.Length, |s|)
    modifies count
    ensures output == Buckets(s, key, count.Length)
  {
    var r, n := count.Length, |s|;
    ghost var e := Buckets(s, key, r);
    BucketsLength(s, key, r);
    var out := new int[n](_ => 0);
    PlacedInit(s, key, r, out[..]);
    var i := n;
    while i > 0
      invariant 0 <= i <= n && out.Length == n && count.Length == r
      invariant count[..] == BucketEnds(s, key, r, i)
      invariant out[..] == Placed(e, key, BucketEnds(s, key, r, i), n)
    {
      PlaceOne(s, key, e, count, out, i - 1);
      i := i - 1;
    }
    PlacedDone(s, key, r);
    output := out[..];
  }

  /** The whole counting pass: its output is the buckets laid out in order. */
  method CountingPass(s: seq<int>, key: BucketKey, r: nat) returns (output: seq<int>)
    requires KeysBelow(s, key, r)
    ensures output == Buckets(s, key, r)
  {
    var count := CountKeys(s, key, r);
    PrefixSums(count, s, key);
    output := Place(s, key, count);
  }
}
