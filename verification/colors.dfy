/** Colours as the demo builds them, and the three-segment hue wheel
    (`wheel` in demo.py). */
module Colors {

  /** An (r, g, b) triple. Channels are unbounded integers, because `wheel`
      computes them by plain arithmetic; `Valid` says when each fits a byte. */
  datatype Color = Color(r: int, g: int, b: int)

  /** The colour the chase routines write to switch a pixel off (the literal 0
      of the driver's packed colour). */
  const Off := Color(0, 0, 0)

  predicate IsChannel(x: int) {
    0 <= x <= 255
  }

  predicate Valid(c: Color) {
    IsChannel(c.r) && IsChannel(c.g) && IsChannel(c.b)
  }

  /** Red rises while green falls for positions below 85, then red falls while
      blue rises, then blue falls while green rises. Every position of the
      wheel is a fully saturated colour: byte channels, one channel dark, and
      the channels summing to 255. */
  function Wheel(pos: int): (c: Color)
    ensures 0 <= pos <= 255 ==> Valid(c)
    ensures 0 <= pos <= 255 ==> c.r + c.g + c.b == 255
    ensures 0 <= pos <= 255 ==> c.r == 0 || c.g == 0 || c.b == 0
  {
    if pos < 85 then
      Color(pos * 3, 255 - pos * 3, 0)
    else if pos < 170 then
      var p := pos - 85;
      Color(255 - p * 3, 0, p * 3)
    else
      var p := pos - 170;
      Color(0, p * 3, 255 - p * 3)
  }

  /** Reads the wheel position back off a wheel colour: the segment is told by
      which channel is dark, the offset by the rising channel. */
  function WheelPosition(c: Color): int {
    if c.b == 0 && c.g > 0 then c.r / 3
    else if c.g == 0 && c.r > 0 then 85 + c.b / 3
    else 170 + c.g / 3
  }

  /** Positions 0 to 254 are one full turn of the wheel: each is recovered
      from its colour. */
  lemma WheelRoundTrip(pos: int)
    requires 0 <= pos < 255
    ensures WheelPosition(Wheel(pos)) == pos
  {
  }

  /** Consequently no two positions of one turn share a colour, and position
      255 closes the turn by repeating position 0. */
  lemma WheelOneTurn(p: int, p': int)
    requires 0 <= p < p' < 255
    ensures Wheel(p) != Wheel(p')
    ensures Wheel(255) == Wheel(0)
  {
    WheelRoundTrip(p);
    WheelRoundTrip(p');
  }

  /** A wheel colour is never the switched-off colour. */
  lemma WheelNeverOff(pos: int)
    requires 0 <= pos <= 255
    ensures Wheel(pos) != Off
  {
  }

  /** The segment boundaries. */
  lemma WheelBoundaries()
    ensures Wheel(0) == Color(0, 255, 0)
    ensures Wheel(84) == Color(252, 3, 0)
    ensures Wheel(85) == Color(255, 0, 0)
    ensures Wheel(169) == Color(3, 0, 252)
    ensures Wheel(170) == Color(0, 0, 255)
    ensures Wheel(255) == Color(0, 255, 0)
  {
  }
}
