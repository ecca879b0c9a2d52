/**
 * Python's `xs[start:stop]` on a list or a string (step 1): each bound is
 * taken from the end when negative and clamped to `[0, len(xs)]`; an empty
 * range gives an empty result instead of an error.
 */
module PySlices {

  function ClampIndex(i: int, n: nat): (j: nat)
    ensures j <= n
  {
    if i < 0 then (if i + n < 0 then 0 else i + n)
    else if i > n then n
    else i
  }

  function Slice<T>(xs: seq<T>, start: int, stop: int): (r: seq<T>)
    ensures 0 <= start <= stop <= |xs| ==> r == xs[start..stop]
    ensures 0 <= start && 0 <= stop && stop <= start ==> r == []
    ensures 0 <= start <= |xs| <= stop ==> r == xs[start..]
    ensures 0 <= stop && |xs| <= start ==> r == []
  {
    var lo, hi := ClampIndex(start, |xs|), ClampIndex(stop, |xs|);
    if lo < hi then xs[lo..hi] else []
  }
}
