/** The pixel-applying half of `cheerLights`: decode the `field2` colour
    string, unpack it into exactly three channels, and wipe that colour
    across the strip. Fetching `field2` from the CheerLights channel is not
    modelled: the string is an input. */
module CheerLights {

  import opened Outcomes
  import opened Colors
  import opened Strip
  import opened HexCodec
  import opened Animations

  /** Why `cheerLights` raises before touching the strip. */
  datatype CheerError =
    | NotHex(position: nat)     // `bytearray.fromhex` rejects the string at this position
    | NotThreeBytes(count: nat) // `r, g, b = ...` cannot unpack this many bytes

  /** The strip after the call and the error it raised, if any. */
  datatype Outcome = Outcome(strip: Run, raised: Option<CheerError>)

  /** The colour `field2` names, when it names exactly one. */
  function FieldColor(field2: string): (r: Result<Color, CheerError>)
    ensures r.Success? <==> HexToRgb(field2).Success? && |HexToRgb(field2).value| == 3
    ensures r.Success? ==> Valid(r.value)
    ensures r.Success? ==> var bs := HexToRgb(field2).value; r.value == Color(bs[0], bs[1], bs[2])
    ensures r.Failure? && HexToRgb(field2).Failure? ==> r.error == NotHex(HexToRgb(field2).error)
    ensures r.Failure? && HexToRgb(field2).Success? ==> r.error == NotThreeBytes(|HexToRgb(field2).value|)
  {
    match HexToRgb(field2)
    case Failure(p) => Failure(NotHex(p))
    case Success(bs) =>
      if |bs| != 3 then Failure(NotThreeBytes(|bs|))
      else Success(Color(bs[0], bs[1], bs[2]))
  }

  /** `cheerLights` from the decoded reply on: on success N frames wiping
      the colour in from pixel 0 and a strip all in that colour; on failure
      no pixel written and nothing flushed. */
  function CheerLights(pixels: seq<Color>, field2: string): (o: Outcome)
    ensures o.raised.None? <==> FieldColor(field2).Success?
    ensures o.raised.Some? ==> o.strip == Run(pixels, []) && o.raised.value == FieldColor(field2).error
    ensures o.raised.None? ==> var c := FieldColor(field2).value;
      && |o.strip.frames| == |pixels|
      && (forall f :: 0 <= f < |pixels| ==> |o.strip.frames[f]| == |pixels|)
      && (forall f, k {:trigger o.strip.frames[f][k]} :: 0 <= f < |pixels| && 0 <= k < |pixels| ==>
            o.strip.frames[f][k] == (if k <= f then c else pixels[k]))
      && |o.strip.pixels| == |pixels|
      && (forall k :: 0 <= k < |pixels| ==> o.strip.pixels[k] == c)
  {
    match FieldColor(field2)
    case Failure(e) => Outcome(Run(pixels, []), Some(e))
    case Success(c) => Outcome(ColorWipe(pixels, c), None)
  }

  /** The CheerLights reply "#FF8000" turns every pixel orange, one flush
      per pixel. */
  lemma OrangeStrip(pixels: seq<Color>)
    ensures var o := CheerLights(pixels, "#FF8000");
      && o.raised == None
      && |o.strip.frames| == |pixels|
      && forall k :: 0 <= k < |pixels| ==> o.strip.pixels[k] == Color(255, 128, 0)
  {
    OrangeExample();
  }

  /** Any colour spelled in hex, behind any number of '#'s, is the colour
      the whole strip ends in. */
  lemma SpelledColorApplies(pixels: seq<Color>, r: byte, g: byte, b: byte, hashes: nat)
    ensures var o := CheerLights(pixels, Hashes(hashes) + ToHex([r, g, b]));
      && o.raised == None
      && |o.strip.frames| == |pixels|
      && forall k :: 0 <= k < |pixels| ==> o.strip.pixels[k] == Color(r, g, b)
  {
    DecodeEncode([r, g, b], hashes);
  }

  /** A well-formed hex string that spells any number of bytes other than
      three raises before the strip is touched. */
  lemma WrongCountRaises(pixels: seq<Color>, bs: seq<byte>, hashes: nat)
    requires |bs| != 3
    ensures CheerLights(pixels, Hashes(hashes) + ToHex(bs))
         == Outcome(Run(pixels, []), Some(NotThreeBytes(|bs|)))
  {
    DecodeEncode(bs, hashes);
  }
}
