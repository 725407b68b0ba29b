/**
 * The JavaScript built-ins the slicer calls, over Dafny sequences:
 * `Array.prototype.findIndex` with a strict-equality test, `String.prototype.indexOf`
 * for one character, and `String.prototype.substring`.
 */
module JsBuiltins {

  /** The index of the first element equal to `x`, or -1 when no element is.
      This is `xs.findIndex(item => item === x)` and, on strings, `s.indexOf(x)`. */
  function FirstIndex<T(==)>(xs: seq<T>, x: T): (r: int)
    ensures -1 <= r < |xs|
    ensures r == -1 <==> x !in xs
    ensures 0 <= r ==> xs[r] == x && x !in xs[..r]
  {
    if xs == [] then -1
    else if xs[0] == x then 0
    else
      var k := FirstIndex(xs[1..], x);
      if k < 0 then -1
      else
        assert xs[..k + 1] == [xs[0]] + xs[1..][..k];
        k + 1
  }

  /** How `substring` reads an index argument: negative values become 0, values past the end become the length. */
  function ClampIndex(i: int, length: nat): (r: nat)
    ensures r <= length
    ensures 0 <= i <= length ==> r == i
    ensures i < 0 ==> r == 0
    ensures length < i ==> r == length
  {
    if i < 0 then 0 else if length < i then length else i
  }

  /** `s.substring(start, end)`: both arguments are clamped into [0, |s|] and swapped when
      the first is the larger, so the result is always a contiguous piece of `s`. */
  function Substring(s: string, start: int, end: int): (r: string)
    ensures 0 <= start <= end <= |s| ==> r == s[start..end]
    ensures 0 <= end <= start <= |s| ==> r == s[end..start]
    ensures start <= 0 && end <= 0 ==> r == []
    ensures |s| <= start && |s| <= end ==> r == []
    ensures 0 <= start <= |s| <= end ==> r == s[start..]
    ensures |r| <= |s|
  {
    var a, b := ClampIndex(start, |s|), ClampIndex(end, |s|);
    if a <= b then s[a..b] else s[b..a]
  }
}
