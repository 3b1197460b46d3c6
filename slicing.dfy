/** Python's slice `xs[:k]`, which both scrapers use to cap the containers they read. */
module Slicing {
  function Max(a: int, b: int): int {
    if a >= b then a else b
  }

  /**
   * `xs[:k]`: the first `k` elements, all of them when `k` is too large, and for a
   * negative `k` all but the last `-k` elements.
   */
  function Prefix<T>(xs: seq<T>, k: int): (r: seq<T>)
    ensures |r| <= |xs| && r == xs[..|r|]
    ensures k >= 0 ==> |r| == if k <= |xs| then k else |xs|
    ensures k < 0 ==> |r| == Max(0, |xs| + k)
  {
    if k >= 0 then (if k <= |xs| then xs[..k] else xs)
    else if |xs| + k >= 0 then xs[..|xs| + k]
    else []
  }
}
