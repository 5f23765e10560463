/** The five animation routines of demo.py, each a function from the strip's
    buffer (and its parameters) to the final buffer and the frames it
    flushed. The real-time pauses between frames are not modelled. */
module Animations {

  import opened Colors
  import opened Strip

  // ---------------------------------------------------------------------
  // colorWipe: one pixel, one frame
  // ---------------------------------------------------------------------

  /** The wipe loop from pixel `i` on: write pixel `i`, flush, continue. */
  function Wipe(px: seq<Color>, i: nat, color: Color): (r: Run)
    requires i <= |px|
    decreases |px| - i
    ensures |r.frames| == |px| - i
    ensures forall f :: 0 <= f < |r.frames| ==> |r.frames[f]| == |px|
    ensures forall f, k {:trigger r.frames[f][k]} :: 0 <= f < |r.frames| && 0 <= k < |px| ==>
      r.frames[f][k] == (if i <= k <= i + f then color else px[k])
    ensures |r.pixels| == |px|
    ensures forall k :: 0 <= k < |px| ==> r.pixels[k] == (if i <= k then color else px[k])
  {
    if i == |px| then Run(px, [])
    else
      var lit := SetPixel(px, i, color);
      var rest := Wipe(lit, i + 1, color);
      var frames := [lit] + rest.frames;
      assert forall f, k :: 1 <= f < |frames| && 0 <= k < |px| ==> frames[f][k] == rest.frames[f - 1][k];
      Run(rest.pixels, frames)
  }

  /** `colorWipe`: N frames; frame f shows pixels 0..f in `color` and the
      rest as they were; the strip ends all `color`. */
  function ColorWipe(pixels: seq<Color>, color: Color): (r: Run)
    ensures |r.frames| == |pixels|
    ensures forall f :: 0 <= f < |r.frames| ==> |r.frames[f]| == |pixels|
    ensures forall f, k :: 0 <= f < |r.frames| && 0 <= k < |pixels| ==>
      r.frames[f][k] == (if k <= f then color else pixels[k])
    ensures |r.pixels| == |pixels|
    ensures forall k :: 0 <= k < |pixels| ==> r.pixels[k] == color
  {
    Wipe(pixels, 0, color)
  }

  // ---------------------------------------------------------------------
  // theaterChase and theaterChaseRainbow: every third pixel, three phases
  // ---------------------------------------------------------------------

  /** `for b in range(start, N, 3): setPixelColor(b + q, paint(b))`, from
      base `b` on. Pixel k is written when k - q is a base the loop
      reaches; bases are below N, so with q >= 0 nothing below N is missed. */
  function Stride(px: seq<Color>, b: nat, q: nat, paint: int -> Color): (r: seq<Color>)
    decreases |px| - b
    ensures |r| == |px|
    ensures forall k :: 0 <= k < |px| ==>
      r[k] == (if b + q <= k && (k - q - b) % 3 == 0 then paint(k - q) else px[k])
  {
    if b >= |px| then px
    else Stride(SetPixel(px, b + q, paint(b)), b + 3, q, paint)
  }

  /** Phase q of pass j: light the pixels at offset q, flush, then switch
      them off again without flushing. `paint(j, b)` is the colour pass j
      gives the pixel lit from base b. */
  function Phase(px: seq<Color>, j: int, q: nat, paint: (int, int) -> Color): (r: Run)
    requires q < 3
    ensures |r.frames| == 1 && |r.frames[0]| == |px|
    ensures forall k :: 0 <= k < |px| ==>
      r.frames[0][k] == (if k % 3 == q then paint(j, k - q) else px[k])
    ensures |r.pixels| == |px|
    ensures forall k :: 0 <= k < |px| ==> r.pixels[k] == (if k % 3 == q then Off else px[k])
  {
    var lit := Stride(px, 0, q, b => paint(j, b));
    Run(Stride(lit, 0, q, _ => Off), [lit])
  }

  /** What one pass of a chase over buffer `px` shows: in frame q the
      pixels at offset q are lit, those at the offsets already visited are
      dark again and the rest are untouched; the pass leaves the strip dark. */
  predicate PassShows(px: seq<Color>, j: int, paint: (int, int) -> Color, r: Run) {
    && |r.frames| == 3
    && (forall q :: 0 <= q < 3 ==> |r.frames[q]| == |px|)
    && (forall q, k {:trigger r.frames[q][k]} :: 0 <= q < 3 && 0 <= k < |px| ==>
          r.frames[q][k] == (if k % 3 == q then paint(j, k - q)
                             else if k % 3 < q then Off
                             else px[k]))
    && |r.pixels| == |px|
    && (forall k :: 0 <= k < |px| ==> r.pixels[k] == Off)
  }

  /** One pass of a chase, the body of `for q in range(3)`. */
  function Pass(px: seq<Color>, j: int, paint: (int, int) -> Color): (r: Run)
    ensures PassShows(px, j, paint, r)
  {
    var a0 := Phase(px, j, 0, paint);
    var a1 := Phase(a0.pixels, j, 1, paint);
    var a2 := Phase(a1.pixels, j, 2, paint);
    Run(a2.pixels, [a0.frames[0], a1.frames[0], a2.frames[0]])
  }

  /** Frame `q` of pass `p` in a run of three-phase passes. */
  function PassFrame(frames: seq<seq<Color>>, p: nat, q: nat): seq<Color>
    requires 3 * p + q < |frames|
  {
    frames[3 * p + q]
  }

  /** What passes j..n-1 of a chase starting from buffer `px` show: in
      phase q of pass p the pixels at offset q are lit; the others are dark,
      except that in the first pass the offsets not yet visited still show
      their starting colours. The strip ends dark if there was a pass. */
  predicate ChaseShows(px: seq<Color>, j: nat, n: nat, paint: (int, int) -> Color, r: Run) {
    && |r.frames| == 3 * (n - j)
    && (forall f :: 0 <= f < |r.frames| ==> |r.frames[f]| == |px|)
    && (forall p: nat, q: nat, k {:trigger PassFrame(r.frames, p, q)[k]} ::
          p < n - j && q < 3 && 0 <= k < |px| ==>
          PassFrame(r.frames, p, q)[k] == (if k % 3 == q then paint(j + p, k - q)
                                           else if 0 < p || k % 3 < q then Off
                                           else px[k]))
    && |r.pixels| == |px|
    && (forall k :: 0 <= k < |px| ==> r.pixels[k] == (if j < n then Off else px[k]))
  }

  /** Passes j..n-1 of a chase; `paint(j, b)` is the colour pass j gives
      the pixel lit from base b. */
  function ChaseFrom(px: seq<Color>, j: nat, n: nat, paint: (int, int) -> Color): (r: Run)
    requires j <= n
    decreases n - j
    ensures ChaseShows(px, j, n, paint, r)
  {
    if j == n then Run(px, [])
    else
      var a := Pass(px, j, paint);
      var rest := ChaseFrom(a.pixels, j + 1, n, paint);
      ChaseStep(px, j, n, paint, a, rest);
      Run(rest.pixels, a.frames + rest.frames)
  }

  /** Pass j of a chase followed by the passes after it, which start from
      the dark strip pass j leaves, shows passes j..n-1. */
  lemma ChaseStep(px: seq<Color>, j: nat, n: nat, paint: (int, int) -> Color, a: Run, rest: Run)
    requires j < n
    requires PassShows(px, j, paint, a)
    requires ChaseShows(a.pixels, j + 1, n, paint, rest)
    ensures ChaseShows(px, j, n, paint, Run(rest.pixels, a.frames + rest.frames))
  {
    var frames := a.frames + rest.frames;
    forall f | 3 <= f < |frames|
      ensures frames[f] == rest.frames[f - 3]
    {
    }
    forall p: nat, q: nat, k | p < n - j && q < 3 && 0 <= k < |px|
      ensures PassFrame(frames, p, q)[k] == (if k % 3 == q then paint(j + p, k - q)
                                             else if 0 < p || k % 3 < q then Off
                                             else px[k])
    {
      if 0 < p {
        assert PassFrame(frames, p, q) == PassFrame(rest.frames, p - 1, q);
      } else {
        assert PassFrame(frames, p, q) == a.frames[q];
      }
    }
  }

  /** A chase of n passes read frame by frame: frame f is phase f % 3 of
      pass f / 3. */
  lemma ChaseFrames(px: seq<Color>, n: nat, paint: (int, int) -> Color, r: Run)
    requires r == ChaseFrom(px, 0, n, paint)
    ensures forall f, k {:trigger r.frames[f][k]} :: 0 <= f < |r.frames| && 0 <= k < |px| ==>
        r.frames[f][k] == (if k % 3 == f % 3 then paint(f / 3, k - f % 3)
                           else if 3 <= f || k % 3 < f % 3 then Off
                           else px[k])
  {
    forall f, k | 0 <= f < |r.frames| && 0 <= k < |px|
      ensures r.frames[f][k] == (if k % 3 == f % 3 then paint(f / 3, k - f % 3)
                                 else if 3 <= f || k % 3 < f % 3 then Off
                                 else px[k])
    {
      var p, q := f / 3, f % 3;
      assert f == 3 * p + q;
      assert r.frames[f] == PassFrame(r.frames, p, q);
    }
  }

  /** A whole chase of n passes: frame f is phase f % 3 of pass f / 3. */
  function Chase(px: seq<Color>, n: nat, paint: (int, int) -> Color): (r: Run)
    ensures |r.frames| == 3 * n
    ensures forall f :: 0 <= f < |r.frames| ==> |r.frames[f]| == |px|
    ensures forall f, k {:trigger r.frames[f][k]} :: 0 <= f < |r.frames| && 0 <= k < |px| ==>
      r.frames[f][k] == (if k % 3 == f % 3 then paint(f / 3, k - f % 3)
                         else if 3 <= f || k % 3 < f % 3 then Off
                         else px[k])
    ensures |r.pixels| == |px|
    ensures forall k :: 0 <= k < |px| ==> r.pixels[k] == (if 0 < n then Off else px[k])
  {
    var r := ChaseFrom(px, 0, n, paint);
    ChaseFrames(px, n, paint, r);
    r
  }

  /** `theaterChase`: 3 frames per iteration. In the frame of phase q every
      pixel at offset q (index % 3 == q) shows `color`; the others are dark,
      except that in the first iteration the offsets not yet visited still
      show the strip's starting colours. The switch-off writes are never
      flushed on their own. After at least one iteration the strip is dark. */
  function TheaterChase(pixels: seq<Color>, color: Color, iterations: int): (r: Run)
    ensures |r.frames| == 3 * Count(iterations)
    ensures forall f :: 0 <= f < |r.frames| ==> |r.frames[f]| == |pixels|
    ensures forall f, k {:trigger r.frames[f][k]} :: 0 <= f < |r.frames| && 0 <= k < |pixels| ==>
      r.frames[f][k] == (if k % 3 == f % 3 then color
                         else if 3 <= f || k % 3 < f % 3 then Off
                         else pixels[k])
    ensures |r.pixels| == |pixels|
    ensures iterations >= 1 ==> forall k :: 0 <= k < |pixels| ==> r.pixels[k] == Off
    ensures iterations < 1 ==> r.pixels == pixels
  {
    Chase(pixels, Count(iterations), (j, b) => color)
  }

  /** `theaterChaseRainbow` makes 256 passes. */
  const ChaseRainbowPasses: nat := 256

  /** The colour pass j of `theaterChaseRainbow` gives the pixel lit from
      base b. */
  function ChaseRainbowHue(j: int, b: int): (c: Color)
    ensures Valid(c) && c.r + c.g + c.b == 255 && (c.r == 0 || c.g == 0 || c.b == 0)
  {
    Wheel((b + j) % 255)
  }

  /** n passes of the rainbow chase. In the frame of pass j and phase q the
      pixel lit from base b = k - q takes the wheel colour at (b + j) % 255;
      after a pass the strip is dark. */
  function ChaseRainbow(pixels: seq<Color>, n: nat): (r: Run)
    ensures |r.frames| == 3 * n
    ensures forall f :: 0 <= f < |r.frames| ==> |r.frames[f]| == |pixels|
    ensures forall f, k {:trigger r.frames[f][k]} :: 0 <= f < |r.frames| && 0 <= k < |pixels| ==>
      r.frames[f][k] == (if k % 3 == f % 3 then ChaseRainbowHue(f / 3, k - f % 3)
                         else if 3 <= f || k % 3 < f % 3 then Off
                         else pixels[k])
    ensures |r.pixels| == |pixels|
    ensures forall k :: 0 <= k < |pixels| ==> r.pixels[k] == (if 0 < n then Off else pixels[k])
  {
    Chase(pixels, n, ChaseRainbowHue)
  }

  /** `theaterChaseRainbow`: the rainbow chase with its fixed 256 passes,
      768 frames, ending dark. */
  function TheaterChaseRainbow(pixels: seq<Color>): (r: Run)
    ensures |r.frames| == 768
    ensures forall f :: 0 <= f < |r.frames| ==> |r.frames[f]| == |pixels|
    ensures forall f, k {:trigger r.frames[f][k]} :: 0 <= f < |r.frames| && 0 <= k < |pixels| ==>
      r.frames[f][k] == (if k % 3 == f % 3 then ChaseRainbowHue(f / 3, k - f % 3)
                         else if 3 <= f || k % 3 < f % 3 then Off
                         else pixels[k])
    ensures |r.pixels| == |pixels|
    ensures forall k :: 0 <= k < |pixels| ==> r.pixels[k] == Off
  {
    ChaseRainbow(pixels, ChaseRainbowPasses)
  }

  /** Each colour the rainbow chase writes is a valid colour that is never
      off, sits on the first turn of the wheel (positions 0 to 254), and
      that position is read back from it. */
  lemma ChaseRainbowOnTurn(j: int, b: int)
    ensures var c := ChaseRainbowHue(j, b);
      && Valid(c) && c != Off
      && 0 <= WheelPosition(c) < 255 && Wheel(WheelPosition(c)) == c
  {
    WheelRoundTrip((b + j) % 255);
  }

  /** The indices `Stride`, started at base b on a strip of n pixels,
      hands to `setPixelColor`, in order: base plus offset for each base
      b, b + 3, ... below n. */
  function StrideWrites(n: nat, b: nat, q: nat): seq<int>
    decreases n - b
  {
    if b >= n then [] else [b + q] + StrideWrites(n, b + 3, q)
  }

  /** The k-th write goes to base b + 3k, which is below n, plus the offset;
      the list stops at the first base that is not below n. */
  lemma {:induction false} StrideWritesSpan(n: nat, b: nat, q: nat)
    decreases n - b
    ensures var w := StrideWrites(n, b, q);
      && (forall k :: 0 <= k < |w| ==> w[k] == b + 3 * k + q && b + 3 * k < n)
      && b + 3 * |w| >= n
  {
    if b < n {
      var w, w' := StrideWrites(n, b, q), StrideWrites(n, b + 3, q);
      StrideWritesSpan(n, b + 3, q);
      assert w == [b + q] + w';
      forall k | 0 <= k < |w|
        ensures w[k] == b + 3 * k + q && b + 3 * k < n
      {
        if k > 0 {
          var k' := k - 1;
          assert w[k] == w'[k'] == b + 3 + 3 * k' + q;
          assert b + 3 + 3 * k' < n;
        }
      }
    }
  }

  /** The pixel writes `w` applied in order, index x painted `paint(x - q)`. */
  function ApplyWrites(px: seq<Color>, w: seq<int>, q: nat, paint: int -> Color): seq<Color>
    decreases |w|
  {
    if |w| == 0 then px else ApplyWrites(SetPixel(px, w[0], paint(w[0] - q)), w[1..], q, paint)
  }

  /** `Stride` is exactly the writes `StrideWrites` lists, in order. */
  lemma {:induction false} StrideIsItsWrites(px: seq<Color>, b: nat, q: nat, paint: int -> Color)
    decreases |px| - b
    ensures Stride(px, b, q, paint) == ApplyWrites(px, StrideWrites(|px|, b, q), q, paint)
  {
    if b < |px| {
      var px' := SetPixel(px, b + q, paint(b));
      StrideStep(px, b, q, paint);
      WritesStep(px, b, q, paint);
      StrideIsItsWrites(px', b + 3, q, paint);
    }
  }

  lemma StrideStep(px: seq<Color>, b: nat, q: nat, paint: int -> Color)
    requires b < |px|
    ensures Stride(px, b, q, paint) == Stride(SetPixel(px, b + q, paint(b)), b + 3, q, paint)
  {
  }

  lemma WritesStep(px: seq<Color>, b: nat, q: nat, paint: int -> Color)
    requires b < |px|
    ensures var px' := SetPixel(px, b + q, paint(b));
      ApplyWrites(px, StrideWrites(|px|, b, q), q, paint) == ApplyWrites(px', StrideWrites(|px'|, b + 3, q), q, paint)
  {
    var w := StrideWrites(|px|, b, q);
    assert w[0] == b + q && w[1..] == StrideWrites(|px|, b + 3, q);
  }

  /** Every index a chase phase hands to `setPixelColor` lies on the strip
      exactly when N is a multiple of 3; otherwise the last base plus
      offset 2 runs past the end (a write the model, like the driver,
      ignores). */
  lemma ChaseWritesInRange(n: nat)
    ensures (forall q, k :: 0 <= q < 3 && 0 <= k < |StrideWrites(n, 0, q)| ==> StrideWrites(n, 0, q)[k] < n)
      <==> n % 3 == 0
  {
    if n % 3 == 0 {
      forall q, k | 0 <= q < 3 && 0 <= k < |StrideWrites(n, 0, q)|
        ensures StrideWrites(n, 0, q)[k] < n
      {
        StrideWritesSpan(n, 0, q);
        BaseBelowMultiple(k, n);
      }
    } else {
      StrideWritesSpan(n, 0, 2);
      var w := StrideWrites(n, 0, 2);
      var k := |w| - 1;
      assert 0 <= k && w[k] == 3 * k + 2 && 3 * k < n <= 3 * (k + 1);
      LastBaseShort(k, n);
      assert 0 <= 2 < 3 && 0 <= k < |StrideWrites(n, 0, 2)| && !(StrideWrites(n, 0, 2)[k] < n);
    }
  }

  /** The last base 3k below an n that is not a multiple of 3 sends
      offset 2 past the end. */
  lemma LastBaseShort(k: nat, n: nat)
    requires 3 * k < n <= 3 * (k + 1) && n % 3 != 0
    ensures 3 * k + 2 >= n
  {
    assert (3 * (k + 1)) % 3 == 0;
  }

  /** A base 3k below a multiple n of 3 leaves room for all three offsets. */
  lemma BaseBelowMultiple(k: nat, n: nat)
    requires 3 * k < n
    ensures n % 3 == 0 ==> 3 * k + 2 < n
  {
    if n % 3 == 0 {
      var m := n / 3;
      assert n == 3 * m;
    }
  }

  // ---------------------------------------------------------------------
  // rainbow and rainbowCycle: every pixel, then one frame
  // ---------------------------------------------------------------------

  /** `for i in range(start, N): setPixelColor(i, paint(i))`. */
  function Fill(px: seq<Color>, i: nat, paint: int -> Color): (r: seq<Color>)
    decreases |px| - i
    ensures |r| == |px|
    ensures forall k :: 0 <= k < |px| ==> r[k] == (if i <= k then paint(k) else px[k])
  {
    if i >= |px| then px else Fill(SetPixel(px, i, paint(i)), i + 1, paint)
  }

  /** Frames j..n-1 of a sweep: each repaints the whole strip with
      `paint(j, i)` for pixel i, then flushes. */
  function SweepFrom(px: seq<Color>, j: nat, n: nat, paint: (int, int) -> Color): (r: Run)
    requires j <= n
    decreases n - j
    ensures |r.frames| == n - j
    ensures forall f :: 0 <= f < |r.frames| ==> |r.frames[f]| == |px|
    ensures forall f, k {:trigger r.frames[f][k]} :: 0 <= f < |r.frames| && 0 <= k < |px| ==>
      r.frames[f][k] == paint(j + f, k)
    ensures |r.pixels| == |px|
    ensures j < n ==> r.pixels == r.frames[|r.frames| - 1]
    ensures j == n ==> r.pixels == px
  {
    if j == n then Run(px, [])
    else
      var lit := Fill(px, 0, i => paint(j, i));
      var rest := SweepFrom(lit, j + 1, n, paint);
      var frames := [lit] + rest.frames;
      assert forall f, k :: 1 <= f < |frames| && 0 <= k < |px| ==> frames[f][k] == rest.frames[f - 1][k];
      Run(rest.pixels, frames)
  }

  /** A whole sweep of n frames, frame j painting pixel i with `paint(j, i)`;
      the strip is left showing the last frame. */
  function Sweep(px: seq<Color>, n: nat, paint: (int, int) -> Color): (r: Run)
    ensures |r.frames| == n
    ensures forall f :: 0 <= f < |r.frames| ==> |r.frames[f]| == |px|
    ensures forall f, k {:trigger r.frames[f][k]} :: 0 <= f < |r.frames| && 0 <= k < |px| ==>
      r.frames[f][k] == paint(f, k)
    ensures 0 < n ==> r.pixels == r.frames[n - 1]
    ensures n == 0 ==> r.pixels == px
  {
    SweepFrom(px, 0, n, paint)
  }

  /** `x & 255`: the low eight bits, which for every integer (two's
      complement) is its Euclidean remainder modulo 256. */
  function Low8(x: int): (y: int)
    ensures 0 <= y <= 255
  {
    x % 256
  }

  /** The colour frame j of `rainbow` gives pixel i. */
  function RainbowHue(j: int, i: int): (c: Color)
    ensures Valid(c) && c.r + c.g + c.b == 255 && (c.r == 0 || c.g == 0 || c.b == 0)
  {
    Wheel(Low8(i + j))
  }

  /** `rainbow`: 256 frames per iteration; frame j shows pixel i in the wheel
      colour at (i + j) & 255, so the whole strip shifts one wheel step per
      frame. */
  function Rainbow(pixels: seq<Color>, iterations: int): (r: Run)
    ensures |r.frames| == 256 * Count(iterations)
    ensures forall f :: 0 <= f < |r.frames| ==> |r.frames[f]| == |pixels|
    ensures forall f, k {:trigger r.frames[f][k]} :: 0 <= f < |r.frames| && 0 <= k < |pixels| ==>
      r.frames[f][k] == Wheel(Low8(k + f))
    ensures |r.pixels| == |pixels|
    ensures iterations < 1 ==> r.pixels == pixels
    ensures iterations >= 1 ==> r.pixels == r.frames[|r.frames| - 1]
  {
    Sweep(pixels, 256 * Count(iterations), RainbowHue)
  }

  /** The wheel offset `rainbowCycle` gives pixel i of n: the integer part
      of i * 256 / n, spreading one turn of the wheel over the strip. It is
      only evaluated for a pixel of the strip, so n is then positive; on an
      empty strip, where the source never divides, it is 0. */
  function CycleOffset(i: int, n: int): (r: int)
    ensures 0 <= i && 0 < n ==> r * n <= i * 256 < (r + 1) * n
    ensures n <= 0 ==> r == 0
  {
    if n <= 0 then 0 else
      var x := i * 256;
      assert x == (x / n) * n + x % n;
      x / n
  }

  /** The offsets start at 0 and stay in [0, 255] along the strip. */
  lemma CycleOffsetRange(i: int, n: int)
    requires 0 <= i < n
    ensures CycleOffset(0, n) == 0
    ensures 0 <= CycleOffset(i, n) <= 255
  {
    assert CycleOffset(0, n) == 0 / n == 0;
    var x := i * 256;
    DivBelow(x, 256, n);
    assert CycleOffset(i, n) == x / n;
  }

  /** The offsets never decrease along the strip. */
  lemma CycleOffsetMonotone(i: int, i': int, n: int)
    requires 0 <= i <= i' < n
    ensures CycleOffset(i, n) <= CycleOffset(i', n)
  {
    var x, y := i * 256, i' * 256;
    DivMonotone(x, y, n);
    assert CycleOffset(i, n) == x / n && CycleOffset(i', n) == y / n;
  }

  lemma DivBelow(x: int, m: int, n: int)
    requires 0 <= x < m * n && 0 < n
    ensures x / n < m
  {
    var q := x / n;
    assert q * n + x % n == x;
    assert (q - m) * n == q * n - m * n;
    assert (q - m) * n < 0;
  }

  lemma DivMonotone(x: int, y: int, n: int)
    requires 0 <= x <= y && 0 < n
    ensures x / n <= y / n
  {
    var d := x / n - y / n;
    assert d * n == (x - x % n) - (y - y % n);
    assert d * n < 1 * n;
  }

  /** The colour frame j of `rainbowCycle` gives pixel i of n. */
  function CycleHue(n: int, j: int, i: int): (c: Color)
    ensures Valid(c) && c.r + c.g + c.b == 255 && (c.r == 0 || c.g == 0 || c.b == 0)
  {
    Wheel(Low8(CycleOffset(i, n) + j))
  }
  /** `rainbowCycle`: 256 frames per iteration; frame j shows pixel i in the
      wheel colour at (i * 256 / N + j) & 255. */
  function RainbowCycle(pixels: seq<Color>, iterations: int): (r: Run)
    ensures |r.frames| == 256 * Count(iterations)
    ensures forall f :: 0 <= f < |r.frames| ==> |r.frames[f]| == |pixels|
    ensures forall f, k {:trigger r.frames[f][k]} :: 0 <= f < |r.frames| && 0 <= k < |pixels| ==>
      r.frames[f][k] == Wheel(Low8(k * 256 / |pixels| + f))
    ensures iterations < 1 ==> r.pixels == pixels
    ensures iterations >= 1 ==> r.pixels == r.frames[|r.frames| - 1]
  {
    var n := |pixels|;
    Sweep(pixels, 256 * Count(iterations), (j, i) => CycleHue(n, j, i))
  }

  /** On a strip of exactly 256 pixels the spread offset `i * 256 / N` is
      `i` itself, so `rainbowCycle` gives every pixel of every frame the
      colour `rainbow` gives it. */
  lemma CycleMatchesRainbowOn256(j: int, i: int)
    requires 0 <= i < 256
    ensures CycleHue(256, j, i) == RainbowHue(j, i)
  {
    assert CycleOffset(i, 256) == i;
  }
}
