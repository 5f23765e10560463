# SnowPi RGB demo: a Dafny model

`demo.py` drives a 12-pixel NeoPixel strip on a Raspberry Pi. Its core is a
hue wheel, a hex colour decoder, five animation routines and the
pixel-applying half of the CheerLights client. All of them write colours
into the strip's buffer one pixel at a time and flush the buffer to the LEDs
with `show()`. This project models that core as pure functions:

- The strip is a `seq<Color>` (module `Strip`). Each routine maps the
  starting buffer to a `Run`: the final buffer together with every frame
  `show()` flushed, in order. Each routine's contract gives frame `f`,
  pixel `k` in closed form. The body follows the source's nested loops as
  recursive functions, so each closed form is proved from the loop
  structure.
- `wheel` (module `Colors`) is proved to be one turn of saturated colours.
  Positions 0 to 254 are recovered from their colour by `WheelPosition`,
  and position 255 repeats position 0.
- `hex_to_rgb` (module `HexCodec`) strips every leading `#` and then decodes
  the rest as `bytearray.fromhex` does:
  - A string holding a non-ASCII character is refused at the first one.
  - Otherwise the digits are read in pairs. ASCII whitespace is allowed
    before, between and after pairs, but not inside one.
  - The result is either the spelled bytes or the position where reading
    gives up.

  Its partner is an upper-case hex encoder `ToHex`, with the round trip
  `DecodeEncode`.
- `cheerLights` (module `CheerLights`) starts from the `field2` string of
  the reply. It decodes the string, unpacks exactly three channels and
  wipes that colour across the strip, one flush per pixel. A string that
  does not decode, or decodes to a byte count other than three, raises
  before any pixel is written. This is modelled as `Outcome.raised`.

Design choices that matter for the contracts:

- `setPixelColor` with an index past the end of the strip changes nothing,
  as in the `rpi_ws281x` driver, which refuses such writes.
  `theaterChase` and `theaterChaseRainbow` write index `b + q` for every
  base `b < N` that is a multiple of 3. `StrideWrites` lists those indices
  in the order `Stride` writes them (`StrideIsItsWrites`). They stay on the
  strip exactly when N is a multiple of 3 (`ChaseWritesInRange`), which the
  demo's 12 pixels are.
- `range(k)` with a negative `k` is empty, so a negative iteration count
  flushes nothing (`Count`).
- `x & 255` on a Python integer equals `x % 256` with Dafny's Euclidean
  remainder, so the model uses `Low8`.
- The frame counts are those of the code. `colorWipe` flushes N times,
  `theaterChase` 3·max(0, iterations) times, `theaterChaseRainbow` 768
  times, and `rainbow`/`rainbowCycle` 256·max(0, iterations) times. A
  zero-pixel strip still flushes its (empty) frames in the last four.
- `hex_to_rgb` accepts any number of leading `#`, and any even number of
  hex digits after them, with whitespace allowed before, between and after
  pairs.
  It raises on a non-ASCII character, on a character that is neither a hex
  digit nor whitespace at a pair boundary, and on an odd number of digits.
  `cheerLights` also raises when the digits spell a byte count other than
  three, because the bytes cannot be unpacked into `r, g, b`.
- `cheerLights` does not check the HTTP status of the reply.

## Model

| member | source | states |
|---|---|---|
| Colors.Wheel | demo.py:82-91 | every position in [0, 255] gives a fully saturated colour: byte channels summing to 255 with at least one channel dark |
| Colors.WheelRoundTrip | demo.py:82-91 | positions 0 to 254 are recovered from the colour `wheel` gives them, so they are one full turn |
| Colors.WheelOneTurn | demo.py:82-91 | no two positions of one turn share a colour, and position 255 repeats position 0 |
| Colors.WheelNeverOff | demo.py:82-91 | no wheel position yields the switched-off colour |
| Colors.WheelBoundaries | demo.py:82-91 | the colours at the segment boundaries 0, 84, 85, 169, 170 and 255 |
| Strip.SetPixel | demo.py:74-75 | a pixel write changes exactly the addressed pixel, and a write past the end changes nothing |
| Strip.Range | demo.py:72 | `range(n)` yields 0, 1, ..., n - 1 in order, and nothing when n is not positive |
| Strip.CountIsRange | demo.py:72 | a loop over `range(n)` makes `Count(n)` passes: n of them, and none for a negative n (also the loops at demo.py lines 96 and 105) |
| HexCodec.LStripHash | demo.py:57 | `lstrip("#")` removes a prefix made only of '#' and leaves a suffix that does not start with '#' |
| HexCodec.DecodeFrom | demo.py:58 | reading from a position succeeds iff the rest reads cleanly (digits, plus whitespace only at pair boundaries: before, between or after pairs) and holds an even number of digits; the bytes are the digit pairs in order with whitespace dropped; otherwise the error is the first position where reading cannot go on, or the end after an odd digit |
| HexCodec.FromHex | demo.py:58 | `fromhex` refuses a string with a non-ASCII character at the first one; otherwise it succeeds iff the whole string reads cleanly with an even digit count, one byte per digit pair, else fails where reading gives up |
| HexCodec.HexToRgb | demo.py:55-58 | `hex_to_rgb` succeeds iff what follows the leading '#'s is text `fromhex` accepts; the bytes are those it spells, else the failure position `fromhex` reports in that remainder |
| HexCodec.FirstNonAscii | demo.py:58 | the scan `fromhex` makes for non-ASCII text returns the first non-ASCII position from i on, or the end when every character there is ASCII |
| HexCodec.FromHexUnspaced | demo.py:58 | on a string without whitespace, `fromhex` succeeds iff the string is an even number of hex digits, and byte k is digit pair k |
| HexCodec.FromHexToHex | demo.py:58 | `fromhex` inverts hex encoding |
| HexCodec.SpacedPairs | demo.py:58 | whitespace between pairs is skipped: "FF 80 00" gives 255, 128, 0 |
| HexCodec.EdgeSpaces | demo.py:58 | whitespace before the first pair and after the last is skipped too: " FF " gives 255 |
| HexCodec.SpaceInsidePair | demo.py:58 | whitespace inside a pair is refused at its position: "F F" fails at 1 |
| HexCodec.NonAsciiFirst | demo.py:55-58 | a non-ASCII character is reported even after an earlier non-hex one: "#zé" fails at 1 of the stripped "zé" |
| HexCodec.HexPair | demo.py:58 | the two digits written for a byte are hex digits that decode back to that byte |
| HexCodec.ToHex | demo.py:58 | encoding writes two hex digits per byte, and each digit pair decodes to its byte |
| HexCodec.StripHashes | demo.py:57 | stripping removes exactly the '#'s put in front of a string that does not start with '#' |
| HexCodec.DecodeEncode | demo.py:55-58 | `hex_to_rgb` of any bytes spelled in hex, behind any number of '#'s, returns those bytes |
| HexCodec.OrangeExample | demo.py:55-58 | `hex_to_rgb("#FF8000")` is the bytes 255, 128, 0 |
| Animations.Wipe | demo.py:64-66 | from pixel i on, frame f shows pixels i..i+f in the colour and the others unchanged; the buffer ends coloured from i on |
| Animations.ColorWipe | demo.py:62-67 | `colorWipe` flushes N frames, frame f shows pixels 0..f in the colour and the rest as they were, and every pixel ends in the colour |
| Animations.Stride | demo.py:74-75 | a stride-3 write loop at offset q changes exactly the pixels whose index minus q is a reached base |
| Animations.Phase | demo.py:74-79 | one phase flushes one frame with offset q lit and the other pixels untouched, then leaves offset q dark |
| Animations.Pass | demo.py:73-79 | one pass flushes three frames; in frame q offset q is lit, offsets below q are dark and the others untouched; the pass leaves the strip dark |
| Animations.ChaseFrom | demo.py:72-79 | passes j..n-1 flush three frames each; in phase q of each pass offset q is lit and all else dark, except offsets not yet visited in the first pass |
| Animations.ChaseStep | demo.py:72-79 | one pass followed by the later passes, which start from a dark strip, gives the chase frames from that pass on |
| Animations.ChaseFrames | demo.py:72-79 | frame f of a chase is phase f % 3 of pass f / 3 |
| Animations.Chase | demo.py:72-79 | n passes flush 3n frames with offset f % 3 lit in frame f, and leave the strip dark when n > 0 |
| Animations.TheaterChase | demo.py:70-79 | `theaterChase` flushes 3·iterations frames, every third pixel lit in turn; after one iteration or more every pixel is off, after none the strip is untouched |
| Animations.TheaterChaseRainbow | demo.py:113-122 | `theaterChaseRainbow` flushes 768 frames; the pixel lit from base b in pass j shows wheel((b + j) % 255); every pixel ends off |
| Animations.ChaseRainbow | demo.py:115-122 | n passes of the rainbow chase flush 3n frames; the pixel lit from base b in pass j shows wheel((b + j) % 255), the rest are dark or not yet visited; the strip ends dark after a pass |
| Animations.ChaseRainbowHue | demo.py:118 | the colour `wheel((i + j) % 255)` is a valid wheel colour with channels summing to 255 and one channel 0 |
| Animations.ChaseRainbowOnTurn | demo.py:118 | the colours the rainbow chase writes are valid, never off, and come from positions 0..254, each recoverable from its colour |
| Animations.StrideWritesSpan | demo.py:74-75 | the k-th index the stride loop writes is base b + 3k (below N) plus the offset, and the loop stops at the first base not below N |
| Animations.StrideIsItsWrites | demo.py:74-75 | the stride loop's effect is exactly the `setPixelColor` calls on the listed indices, in order |
| Animations.ChaseWritesInRange | demo.py:74-75 | every index a chase phase passes to `setPixelColor` lies on the strip iff N is a multiple of 3 |
| Animations.Fill | demo.py:97-98 | the per-pixel loop paints every pixel from i on and leaves the earlier ones alone |
| Animations.SweepFrom | demo.py:96-99 | frames j..n-1 each repaint the whole strip with that frame's paint, and the strip is left showing the last one |
| Animations.Sweep | demo.py:96-99 | n whole-strip frames, frame f painting pixel k with paint(f, k); the strip keeps the last frame |
| Animations.Low8 | demo.py:98 | `& 255` yields a wheel position in [0, 255] |
| Animations.RainbowHue | demo.py:98 | every colour `rainbow` writes is a valid saturated wheel colour |
| Animations.Rainbow | demo.py:94-100 | `rainbow` flushes 256·iterations frames, frame f showing pixel k at wheel((k + f) & 255), and the strip keeps the last frame |
| Animations.CycleOffset | demo.py:108 | for a pixel i of a non-empty strip the offset is the integer part of i·256 / N (offset·N ≤ i·256 < (offset + 1)·N); 0 on an empty strip, where the source never divides |
| Animations.CycleOffsetRange | demo.py:107-108 | the per-pixel offset `i * 256 / N` starts at 0 and stays within [0, 255] on the strip |
| Animations.CycleOffsetMonotone | demo.py:107-108 | the per-pixel offset never decreases along the strip |
| Animations.CycleHue | demo.py:107-108 | every colour `rainbowCycle` writes is a valid saturated wheel colour |
| Animations.RainbowCycle | demo.py:103-110 | `rainbowCycle` flushes 256·iterations frames, frame f showing pixel k at wheel((k·256/N + f) & 255), and the strip keeps the last frame |
| Animations.CycleMatchesRainbowOn256 | demo.py:94-110 | on a strip of 256 pixels the colour `rainbowCycle` computes for pixel i in frame j is the one `rainbow` computes |
| CheerLights.FieldColor | demo.py:132 | the reply names a colour iff it decodes to exactly three bytes, which become the valid colour's channels; otherwise the decode failure or the wrong byte count is reported |
| CheerLights.CheerLights | demo.py:132-136 | on a usable reply, N flushes wipe the colour in from pixel 0 and the strip ends in it; otherwise the call raises with nothing written or flushed |
| CheerLights.OrangeStrip | demo.py:132-136 | the reply "#FF8000" turns every pixel orange with N flushes |
| CheerLights.SpelledColorApplies | demo.py:132-136 | any colour spelled as six hex digits behind any number of '#'s ends as the colour of every pixel |
| CheerLights.WrongCountRaises | demo.py:132 | well-formed hex that spells a byte count other than three raises with the strip untouched |

## Left out

- The pauses `time.sleep(wait_ms / 1000.0)` and `time.sleep(10)` (demo.py:67, 77, 100, 110, 120, 140): real time is not modelled, so `wait_ms` is not a parameter of the model.
- The HTTP request and the JSON reply (demo.py:130, 132): network I/O. The model starts from the `field2` string; a network failure or a missing field is not modelled.
- `PROXIES` and the commented-out proxied request (demo.py:48-51, 128): configuration for the request above.
- The `rpi_ws281x` driver: `PixelStrip`, `begin`, brightness, the 24-bit packing done by `Color(r, g, b)`, and the hardware flush. A colour is an (r, g, b) triple and `show()` appends the buffer to the frame log.
- The command line and the main loop (demo.py:143 on): argument parsing, routine selection, the `KeyboardInterrupt` clear-on-exit path.
- Animations.RainbowCycle: `int(i * 256 / N)` is computed in floating point in the source; the model uses exact integer division, which agrees with it for any realistic strip length.
- HexCodec.HexToRgb: the failure is modelled as the position `fromhex` reports, not as Python's `ValueError` message text.
- HexCodec.FromHex: the whitespace rule is that of CPython 3.7 and later, where any ASCII whitespace may stand before, between and after pairs; earlier versions accepted only spaces.
- Colors.Wheel: positions outside [0, 255] are not given a contract; the routines never pass one (`& 255` and `% 255` keep them in range).
