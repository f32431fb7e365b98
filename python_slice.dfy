/** Python's slice notation `s[start:stop]` (step 1) on sequences, with its
    rules for negative and out-of-range bounds written out. */
module PythonSlice {

  function Min(a: int, b: int): int { if a <= b then a else b }

  function Max(a: int, b: int): int { if a <= b then b else a }

  /** The position a slice bound `i` denotes in a sequence of length `n`:
      a negative bound counts from the end, and the result is clamped to 0..n. */
  function Bound(i: int, n: nat): (b: nat)
    ensures b <= n
    ensures 0 <= i ==> b == Min(i, n)
    ensures i < 0 ==> b == Max(n + i, 0)
  {
    if i < 0 then (if n + i < 0 then 0 else n + i)
    else if i > n then n
    else i
  }

  /** `s[start:stop]`: the run of `s` between the two normalised bounds, and
      empty when they cross. */
  function Slice<T>(s: seq<T>, start: int, stop: int): (r: seq<T>)
    ensures |r| == Max(Bound(stop, |s|) - Bound(start, |s|), 0)
    ensures forall k :: 0 <= k < |r| ==> r[k] == s[Bound(start, |s|) + k]
  {
    var a, b := Bound(start, |s|), Bound(stop, |s|);
    if a < b then s[a..b] else []
  }

  /** `s[:stop]`: the first `stop` elements for `stop >= 0`; for a negative
      `stop`, all but the last `-stop` elements, and none once `-stop`
      exceeds the length. */
  function Prefix<T>(s: seq<T>, stop: int): (r: seq<T>)
    ensures 0 <= stop ==> r == s[..Min(stop, |s|)]
    ensures stop < 0 ==> r == s[..Max(|s| + stop, 0)]
  {
    Slice(s, 0, stop)
  }
}
