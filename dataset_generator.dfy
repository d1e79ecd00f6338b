/**
 * `DatasetGenerator`: the integer and string datasets of growing size used to time the
 * code under analysis. Dataset `i` has `SizeAt(i)` elements, where the size starts at 1
 * and becomes `size * 2 + size // 2` after each dataset.
 */
module DatasetGeneration {
  import opened Ranges

  /** The size of dataset `i`. */
  function SizeAt(i: nat): (s: nat)
    ensures s >= 1
  {
    if i == 0 then 1 else SizeAt(i - 1) * 2 + SizeAt(i - 1) / 2
  }

  /** Every dataset is larger than the one before it. */
  lemma {:induction false} SizesIncrease(i: nat, j: nat)
    requires i < j
    ensures SizeAt(i) < SizeAt(j)
    decreases j
  {
    if i < j - 1 {
      SizesIncrease(i, j - 1);
    }
  }

  /** `generate_int_dataset(max_size)`: dataset `i` is `list(range(SizeAt(i)))`. */
  method GenerateIntDataset(maxSize: int) returns (datasets: seq<seq<int>>)
    ensures |datasets| == (if maxSize > 0 then maxSize else 0)
    ensures forall i {:trigger datasets[i]} :: 0 <= i < |datasets| ==> datasets[i] == Range(SizeAt(i))
  {
    datasets := [];
    var size := 1;
    for i := 0 to (if maxSize > 0 then maxSize else 0)
      invariant |datasets| == i && size == SizeAt(i)
      invariant forall k {:trigger datasets[k]} :: 0 <= k < i ==> datasets[k] == Range(SizeAt(k))
    {
      var data := Range(size);
      datasets := datasets + [data];
      size := size * 2 + size / 2;
    }
  }

  /** `string.ascii_lowercase`. */
  const Lowercase := "abcdefghijklmnopqrstuvwxyz"

  predicate IsLower(c: char) {
    'a' <= c <= 'z'
  }

  /** String `j` of every string dataset: `(j % 10) + 1` letters, the one at position `p`
      being letter `(j * p) % 26` of the alphabet. */
  function StringAt(j: nat): (r: string)
    ensures |r| == j % 10 + 1
    ensures forall p :: 0 <= p < |r| ==> r[p] == Lowercase[(j * p) % 26]
  {
    seq(j % 10 + 1, p requires 0 <= p => Lowercase[(j * p) % 26])
  }

  /** Every generated string is a non-empty run of lower-case letters starting with `a`. */
  lemma StringShape(j: nat)
    ensures StringAt(j) != [] && StringAt(j)[0] == 'a'
    ensures forall p :: 0 <= p < |StringAt(j)| ==> IsLower(StringAt(j)[p])
  {
    var r := StringAt(j);
    assert r[0] == Lowercase[0];
    forall p | 0 <= p < |r| ensures IsLower(r[p]) {
      var c := (j * p) % 26;
      assert r[p] == Lowercase[c];
    }
  }

  /** `generate_string_dataset(max_size)`: datasets of the same sizes as the integer
      datasets, holding the strings `StringAt(0), StringAt(1), ...`. */
  method GenerateStringDataset(maxSize: int) returns (datasets: seq<seq<string>>)
    ensures |datasets| == (if maxSize > 0 then maxSize else 0)
    ensures forall i {:trigger datasets[i]} :: 0 <= i < |datasets| ==> |datasets[i]| == SizeAt(i)
    ensures forall i, j :: 0 <= i < |datasets| && 0 <= j < |datasets[i]| ==> datasets[i][j] == StringAt(j)
  {
    datasets := [];
    var size := 1;
    for i := 0 to (if maxSize > 0 then maxSize else 0)
      invariant |datasets| == i && size == SizeAt(i)
      invariant forall k {:trigger datasets[k]} :: 0 <= k < i ==> |datasets[k]| == SizeAt(k)
      invariant forall k, j :: 0 <= k < i && 0 <= j < |datasets[k]| ==> datasets[k][j] == StringAt(j)
    {
      var data := [];
      for j := 0 to size
        invariant |data| == j
        invariant forall l :: 0 <= l < j ==> data[l] == StringAt(l)
      {
        data := data + [StringAt(j)];
      }
      datasets := datasets + [data];
      size := size * 2 + size / 2;
    }
  }
}
