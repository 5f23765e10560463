/** The LED strip as the animations see it: a buffer of N colours written one
    pixel at a time, and a log of the buffers each `show()` flushed. */
module Strip {

  import opened Colors

  /** What a routine leaves behind: the final buffer and, in order, every
      frame it flushed. */
  datatype Run = Run(pixels: seq<Color>, frames: seq<seq<Color>>)

  /** `setPixelColor(n, c)`. A write past the end of the strip changes
      nothing. */
  function SetPixel(px: seq<Color>, n: int, c: Color): (r: seq<Color>)
    ensures |r| == |px|
    ensures forall k :: 0 <= k < |px| ==> r[k] == (if k == n then c else px[k])
  {
    if 0 <= n < |px| then px[n := c] else px
  }

  /** The values `range(n)` yields, in order: 0, 1, ..., n - 1, and none
      when `n` is not positive. */
  function Range(n: int): (s: seq<int>)
    ensures forall k :: 0 <= k < |s| ==> s[k] == k
    ensures n <= 0 ==> |s| == 0
    ensures n > 0 ==> |s| > 0 && s[|s| - 1] == n - 1
  {
    if n <= 0 then [] else Range(n - 1) + [n - 1]
  }

  /** The number of passes `range(n)` makes: none when `n` is negative. */
  function Count(n: int): nat {
    if n < 0 then 0 else n
  }

  /** A loop over `range(n)` makes `Count(n)` passes. */
  lemma {:induction false} CountIsRange(n: int)
    ensures Count(n) == |Range(n)|
  {
    if n > 0 {
      CountIsRange(n - 1);
    }
  }
}
