/** Python's `list(range(n))`. */
module Ranges {

  /** `list(range(n))`: `0, 1, ..., n - 1`, and empty when `n <= 0`. */
  function Range(n: int): (r: seq<int>)
    ensures |r| == (if n > 0 then n else 0)
    ensures forall k :: 0 <= k < |r| ==> r[k] == k
  {
    seq(if n > 0 then n else 0, k => k)
  }
}
