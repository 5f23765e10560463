/** `hex_to_rgb`: drop every leading '#', then decode the rest the way
    `bytearray.fromhex` does: two hex digits per byte, ASCII whitespace
    allowed before, between and after pairs but not inside one, and a
    non-ASCII string refused at its first non-ASCII character. */
module HexCodec {

  import opened Outcomes

  type byte = x: int | 0 <= x < 256

  predicate IsHexDigit(c: char) {
    '0' <= c <= '9' || 'a' <= c <= 'f' || 'A' <= c <= 'F'
  }

  function DigitValue(c: char): (v: nat)
    requires IsHexDigit(c)
    ensures v < 16
  {
    if '0' <= c <= '9' then c as int - '0' as int
    else if 'a' <= c <= 'f' then c as int - 'a' as int + 10
    else c as int - 'A' as int + 10
  }

  /** The byte spelled by two hex digits, high digit first. */
  function PairValue(hi: char, lo: char): byte
    requires IsHexDigit(hi) && IsHexDigit(lo)
  {
    16 * DigitValue(hi) + DigitValue(lo)
  }

  /** An even number of hex digits and nothing else. */
  predicate IsHexString(t: string) {
    |t| % 2 == 0 && forall i :: 0 <= i < |t| ==> IsHexDigit(t[i])
  }

  /** The ASCII whitespace `fromhex` skips: space, tab, line feed, vertical
      tab, form feed and carriage return. */
  predicate IsSpace(c: char) {
    c == ' ' || '\t' <= c <= '\r'
  }

  predicate IsAscii(c: char) {
    c as int < 128
  }

  /** The characters of `s` that are not whitespace, in order. */
  function Unspaced(s: string): string {
    if |s| == 0 then "" else (if IsSpace(s[0]) then "" else [s[0]]) + Unspaced(s[1..])
  }

  /** `fromhex`, reading `t` from position `i`, gets to position `p` without
      complaint: every character before `p` is a hex digit, or whitespace
      standing where a new pair would start (after an even number of
      digits). */
  predicate ReadsCleanly(t: string, i: nat, p: nat)
    requires i <= p <= |t|
  {
    forall m :: i <= m < p ==> IsHexDigit(t[m]) || (IsSpace(t[m]) && |Unspaced(t[i..m])| % 2 == 0)
  }

  /** What `fromhex` accepts from position `i` on: the rest reads cleanly
      and holds an even number of digits. */
  predicate IsHexTextFrom(t: string, i: nat)
    requires i <= |t|
  {
    ReadsCleanly(t, i, |t|) && |Unspaced(t[i..])| % 2 == 0
  }

  /** Where `fromhex`, reading `t` from position `i`, gives up: everything
      before `p` reads cleanly, and either the character at `p` cannot go on
      (it is not a hex digit, nor whitespace at a pair boundary), or `p` is
      the end and a pair is left without its low digit. */
  predicate IsErrorPositionFrom(t: string, i: nat, p: nat) {
    && i <= p <= |t|
    && ReadsCleanly(t, i, p)
    && var c := |Unspaced(t[i..p])|;
       if p < |t| then !IsHexDigit(t[p]) && !(IsSpace(t[p]) && c % 2 == 0)
       else c % 2 == 1
  }

  /** Where `fromhex` gives up on `t`: a string holding any non-ASCII
      character is refused at the first one; otherwise it fails where the
      reading from position 0 gives up. */
  predicate IsErrorPosition(t: string, p: nat) {
    if exists m :: 0 <= m < |t| && !IsAscii(t[m]) then
      p < |t| && !IsAscii(t[p]) && forall m :: 0 <= m < p ==> IsAscii(t[m])
    else
      IsErrorPositionFrom(t, 0, p)
  }

  /** `str.lstrip("#")`: the longest suffix of `s` that does not start with
      '#' and whose removed prefix is all '#'. */
  function LStripHash(s: string): (t: string)
    ensures |t| <= |s| && t == s[|s| - |t|..]
    ensures forall i :: 0 <= i < |s| - |t| ==> s[i] == '#'
    ensures |t| == 0 || t[0] != '#'
  {
    if |s| > 0 && s[0] == '#' then LStripHash(s[1..]) else s
  }

  /** Removing whitespace distributes over concatenation. */
  lemma {:induction false} UnspacedConcat(a: string, b: string)
    ensures Unspaced(a + b) == Unspaced(a) + Unspaced(b)
  {
    if |a| > 0 {
      assert (a + b)[1..] == a[1..] + b;
      UnspacedConcat(a[1..], b);
    } else {
      assert a + b == b;
    }
  }

  /** A leading whitespace character changes neither the digits read up
      to `m` nor their count. */
  lemma SkipSpace(t: string, i: nat, m: nat)
    requires i < m <= |t| && IsSpace(t[i])
    ensures Unspaced(t[i..m]) == Unspaced(t[i + 1..m])
  {
    assert t[i..m] == [t[i]] + t[i + 1..m];
    UnspacedConcat([t[i]], t[i + 1..m]);
    assert Unspaced([t[i]]) == "";
  }

  /** A leading pair of digits is the first pair read up to `m`. */
  lemma SkipPair(t: string, i: nat, m: nat)
    requires i + 2 <= m <= |t| && IsHexDigit(t[i]) && IsHexDigit(t[i + 1])
    ensures Unspaced(t[i..m]) == t[i..i + 2] + Unspaced(t[i + 2..m])
  {
    assert t[i..m] == t[i..i + 2] + t[i + 2..m];
    UnspacedConcat(t[i..i + 2], t[i + 2..m]);
    assert t[i..i + 2][1..] == [t[i + 1]];
    assert Unspaced(t[i..i + 2]) == t[i..i + 2];
  }

  /** Whitespace at the start reads cleanly up to `p` iff the rest does. */
  lemma SpaceReads(t: string, i: nat, p: nat)
    requires i < p <= |t| && IsSpace(t[i])
    ensures ReadsCleanly(t, i, p) <==> ReadsCleanly(t, i + 1, p)
  {
    assert Unspaced(t[i..i]) == "";
    forall m | i + 1 <= m < p
      ensures Unspaced(t[i..m]) == Unspaced(t[i + 1..m])
    {
      SkipSpace(t, i, m);
    }
  }

  /** A digit pair at the start reads cleanly up to `p` iff the rest does. */
  lemma PairReads(t: string, i: nat, p: nat)
    requires i + 2 <= p <= |t| && IsHexDigit(t[i]) && IsHexDigit(t[i + 1])
    ensures ReadsCleanly(t, i, p) <==> ReadsCleanly(t, i + 2, p)
  {
    forall m | i + 2 <= m < p
      ensures |Unspaced(t[i..m])| == 2 + |Unspaced(t[i + 2..m])|
    {
      SkipPair(t, i, m);
    }
  }

  /** The decoding loop, from position `i` of `t` on: skip whitespace
      before a pair, decode a pair of digits into one byte, or give up at
      the first offending position. */
  function DecodeFrom(t: string, i: nat): (r: Result<seq<byte>, nat>)
    requires i <= |t|
    decreases |t| - i
    ensures r.Success? <==> IsHexTextFrom(t, i)
    ensures r.Success? ==> var u := Unspaced(t[i..]);
      && IsHexString(u)
      && |r.value| == |u| / 2
      && forall k :: 0 <= k < |r.value| ==> r.value[k] == PairValue(u[2 * k], u[2 * k + 1])
    ensures r.Failure? ==> IsErrorPositionFrom(t, i, r.error)
  {
    if i == |t| then Success([])
    else if IsSpace(t[i]) then
      var r := DecodeFrom(t, i + 1);
      SpaceStep(t, i, r);
      r
    else if !IsHexDigit(t[i]) then Failure(i)
    else if i + 1 == |t| || !IsHexDigit(t[i + 1]) then
      HighOnly(t, i);
      Failure(i + 1)
    else
      var rest := DecodeFrom(t, i + 2);
      var r := match rest
        case Failure(p) => Failure(p)
        case Success(bs) => Success([PairValue(t[i], t[i + 1])] + bs);
      PairStep(t, i, rest, r);
      r
  }

  /** Skipping a whitespace character keeps the outcome of reading on. */
  lemma SpaceStep(t: string, i: nat, r: Result<seq<byte>, nat>)
    requires i < |t| && IsSpace(t[i])
    requires r.Success? <==> IsHexTextFrom(t, i + 1)
    requires r.Success? ==> var u := Unspaced(t[i + 1..]);
      && IsHexString(u)
      && |r.value| == |u| / 2
      && forall k :: 0 <= k < |r.value| ==> r.value[k] == PairValue(u[2 * k], u[2 * k + 1])
    requires r.Failure? ==> IsErrorPositionFrom(t, i + 1, r.error)
    ensures r.Success? <==> IsHexTextFrom(t, i)
    ensures r.Success? ==> var u := Unspaced(t[i..]);
      && IsHexString(u)
      && |r.value| == |u| / 2
      && forall k :: 0 <= k < |r.value| ==> r.value[k] == PairValue(u[2 * k], u[2 * k + 1])
    ensures r.Failure? ==> IsErrorPositionFrom(t, i, r.error)
  {
    assert t[i..] == t[i..|t|] && t[i + 1..] == t[i + 1..|t|];
    SpaceReads(t, i, |t|);
    SkipSpace(t, i, |t|);
    if r.Failure? {
      SpaceReads(t, i, r.error);
      SkipSpace(t, i, r.error);
    }
  }

  /** A high digit with no hex digit right after it fails just past it. */
  lemma HighOnly(t: string, i: nat)
    requires i < |t| && IsHexDigit(t[i])
    requires i + 1 == |t| || !IsHexDigit(t[i + 1])
    ensures !IsHexTextFrom(t, i)
    ensures IsErrorPositionFrom(t, i, i + 1)
  {
    assert t[i..i + 1] == [t[i]];
    assert Unspaced(t[i..i + 1]) == [t[i]] + Unspaced([]);
    assert t[i..i + 1][1..] == [];
    assert Unspaced(t[i..i]) == "";
    if i + 1 == |t| {
      assert t[i..] == t[i..i + 1];
    } else {
      assert !(IsHexDigit(t[i + 1]) || (IsSpace(t[i + 1]) && |Unspaced(t[i..i + 1])| % 2 == 0));
    }
  }

  /** Reading a pair of digits and then the rest reads from the pair on. */
  lemma PairStep(t: string, i: nat, rest: Result<seq<byte>, nat>, r: Result<seq<byte>, nat>)
    requires i + 1 < |t| && IsHexDigit(t[i]) && IsHexDigit(t[i + 1])
    requires rest.Success? <==> IsHexTextFrom(t, i + 2)
    requires rest.Success? ==> var u := Unspaced(t[i + 2..]);
      && IsHexString(u)
      && |rest.value| == |u| / 2
      && forall k :: 0 <= k < |rest.value| ==> rest.value[k] == PairValue(u[2 * k], u[2 * k + 1])
    requires rest.Failure? ==> IsErrorPositionFrom(t, i + 2, rest.error)
    requires r == match rest
      case Failure(p) => Failure(p)
      case Success(bs) => Success([PairValue(t[i], t[i + 1])] + bs)
    ensures r.Success? <==> IsHexTextFrom(t, i)
    ensures r.Success? ==> var u := Unspaced(t[i..]);
      && IsHexString(u)
      && |r.value| == |u| / 2
      && forall k :: 0 <= k < |r.value| ==> r.value[k] == PairValue(u[2 * k], u[2 * k + 1])
    ensures r.Failure? ==> IsErrorPositionFrom(t, i, r.error)
  {
    assert t[i..] == t[i..|t|] && t[i + 2..] == t[i + 2..|t|];
    PairReads(t, i, |t|);
    SkipPair(t, i, |t|);
    if r.Failure? {
      PairReads(t, i, r.error);
      SkipPair(t, i, r.error);
    } else {
      PairValues(t[i..i + 2], Unspaced(t[i + 2..]), rest.value);
    }
  }

  /** Decoding a digit pair followed by digits read as `bs` reads the pair's
      byte followed by `bs`. */
  lemma PairValues(h: string, u: string, bs: seq<byte>)
    requires |h| == 2 && IsHexDigit(h[0]) && IsHexDigit(h[1])
    requires IsHexString(u) && |bs| == |u| / 2
    requires forall k :: 0 <= k < |bs| ==> bs[k] == PairValue(u[2 * k], u[2 * k + 1])
    ensures var v, cs := h + u, [PairValue(h[0], h[1])] + bs;
      && IsHexString(v)
      && |cs| == |v| / 2
      && forall k :: 0 <= k < |cs| ==> cs[k] == PairValue(v[2 * k], v[2 * k + 1])
  {
    var v, cs := h + u, [PairValue(h[0], h[1])] + bs;
    forall k | 0 <= k < |cs|
      ensures cs[k] == PairValue(v[2 * k], v[2 * k + 1])
    {
      if k > 0 {
        assert v[2 * k] == u[2 * (k - 1)] && v[2 * k + 1] == u[2 * (k - 1) + 1];
      }
    }
  }

  /** The position of the first non-ASCII character of `t` from `i` on, or
      `|t|` when there is none. */
  function FirstNonAscii(t: string, i: nat): (p: nat)
    requires i <= |t|
    decreases |t| - i
    ensures i <= p <= |t|
    ensures forall m :: i <= m < p ==> IsAscii(t[m])
    ensures p < |t| ==> !IsAscii(t[p])
  {
    if i == |t| || !IsAscii(t[i]) then i else FirstNonAscii(t, i + 1)
  }

  /** `bytearray.fromhex`: a string with a non-ASCII character is refused
      at the first one; otherwise the digit pairs, which whitespace may
      separate, are decoded in order. */
  function FromHex(t: string): (r: Result<seq<byte>, nat>)
    ensures r.Success? <==> IsHexTextFrom(t, 0)
    ensures r.Success? ==> var u := Unspaced(t);
      && IsHexString(u)
      && |r.value| == |u| / 2
      && forall k :: 0 <= k < |r.value| ==> r.value[k] == PairValue(u[2 * k], u[2 * k + 1])
    ensures r.Failure? ==> IsErrorPosition(t, r.error)
  {
    var p := FirstNonAscii(t, 0);
    assert t[0..] == t;
    if p < |t| then
      assert !(IsHexDigit(t[p]) || IsSpace(t[p]));
      Failure(p)
    else
      DecodeFrom(t, 0)
  }

  /** `hex_to_rgb`: the bytes spelled by whatever follows the leading '#'s,
      or the position in that remainder where `fromhex` gives up. */
  function HexToRgb(colHex: string): (r: Result<seq<byte>, nat>)
    ensures var t := LStripHash(colHex);
      && (r.Success? <==> IsHexTextFrom(t, 0))
      && (r.Success? ==> var u := Unspaced(t);
            && IsHexString(u)
            && |r.value| == |u| / 2
            && forall k :: 0 <= k < |r.value| ==> r.value[k] == PairValue(u[2 * k], u[2 * k + 1]))
      && (r.Failure? ==> IsErrorPosition(t, r.error))
  {
    FromHex(LStripHash(colHex))
  }

  /** With no whitespace in the way, `fromhex` accepts exactly the strings
      of an even number of hex digits and reads the pairs in place. */
  lemma FromHexUnspaced(t: string)
    requires forall m :: 0 <= m < |t| ==> !IsSpace(t[m])
    ensures FromHex(t).Success? <==> IsHexString(t)
    ensures FromHex(t).Success? ==> var bs := FromHex(t).value;
      |bs| == |t| / 2 && forall k :: 0 <= k < |bs| ==> bs[k] == PairValue(t[2 * k], t[2 * k + 1])
  {
    NoSpaceUnspaced(t);
    assert t[0..] == t;
    if IsHexString(t) {
      assert ReadsCleanly(t, 0, |t|);
    }
  }

  lemma {:induction false} NoSpaceUnspaced(s: string)
    requires forall m :: 0 <= m < |s| ==> !IsSpace(s[m])
    ensures Unspaced(s) == s
  {
    if |s| > 0 {
      NoSpaceUnspaced(s[1..]);
    }
  }

  /** Upper-case hex digits, indexed by value. */
  const Digits := "0123456789ABCDEF"

  /** The two upper-case digits spelling one byte. */
  function HexPair(b: byte): (p: string)
    ensures |p| == 2 && IsHexDigit(p[0]) && IsHexDigit(p[1])
    ensures PairValue(p[0], p[1]) == b
  {
    DigitsDecode(b / 16);
    DigitsDecode(b % 16);
    [Digits[b / 16], Digits[b % 16]]
  }

  lemma DigitsDecode(d: nat)
    requires d < 16
    ensures IsHexDigit(Digits[d]) && DigitValue(Digits[d]) == d
  {
  }

  /** Hex encoding, two upper-case digits per byte: the inverse direction of
      `HexToRgb`, used to state its round trip. */
  function ToHex(bs: seq<byte>): (s: string)
    ensures |s| == 2 * |bs|
    ensures forall i :: 0 <= i < |s| ==> IsHexDigit(s[i])
    ensures forall k :: 0 <= k < |bs| ==> PairValue(s[2 * k], s[2 * k + 1]) == bs[k]
  {
    if |bs| == 0 then ""
    else
      var rest := ToHex(bs[1..]);
      PrependPair(bs, rest);
      HexPair(bs[0]) + rest
  }

  /** The spelling of `bs` is the pair of its first byte followed by the
      spelling of the others. */
  lemma PrependPair(bs: seq<byte>, rest: string)
    requires |bs| > 0 && |rest| == 2 * (|bs| - 1)
    requires forall i :: 0 <= i < |rest| ==> IsHexDigit(rest[i])
    requires forall k :: 0 <= k < |bs| - 1 ==> PairValue(rest[2 * k], rest[2 * k + 1]) == bs[k + 1]
    ensures var s := HexPair(bs[0]) + rest;
      && (forall i :: 0 <= i < |s| ==> IsHexDigit(s[i]))
      && (forall k :: 0 <= k < |bs| ==> PairValue(s[2 * k], s[2 * k + 1]) == bs[k])
  {
    var s := HexPair(bs[0]) + rest;
    forall k | 0 <= k < |bs|
      ensures PairValue(s[2 * k], s[2 * k + 1]) == bs[k]
    {
      if k > 0 {
        var m := k - 1;
        assert s[2 * k] == rest[2 * m] && s[2 * k + 1] == rest[2 * m + 1];
      }
    }
  }

  function Hashes(n: nat): (s: string)
    ensures |s| == n && forall i :: 0 <= i < n ==> s[i] == '#'
  {
    seq(n, _ => '#')
  }

  /** Decoding the hex spelling of any bytes, behind any number of '#'s
      (none included), gives the bytes back. */
  lemma DecodeEncode(bs: seq<byte>, hashes: nat)
    ensures HexToRgb(Hashes(hashes) + ToHex(bs)) == Success(bs)
  {
    var hex := ToHex(bs);
    if |hex| > 0 {
      assert IsHexDigit(hex[0]);
    }
    StripHashes(hashes, hex);
    assert HexToRgb(Hashes(hashes) + hex) == FromHex(hex);
    FromHexToHex(bs);
  }

  /** `fromhex` inverts `ToHex`. */
  lemma FromHexToHex(bs: seq<byte>)
    ensures FromHex(ToHex(bs)) == Success(bs)
  {
    var hex := ToHex(bs);
    assert IsHexString(hex);
    FromHexUnspaced(hex);
    assert FromHex(hex).value == bs;
  }

  /** Stripping removes exactly the added '#'s from a string that does not
      itself start with '#'. */
  lemma {:induction false} StripHashes(n: nat, t: string)
    requires |t| == 0 || t[0] != '#'
    ensures LStripHash(Hashes(n) + t) == t
  {
    if n > 0 {
      assert (Hashes(n) + t)[1..] == Hashes(n - 1) + t;
      StripHashes(n - 1, t);
    } else {
      assert Hashes(n) + t == t;
    }
  }

  /** A CheerLights reply: `#FF8000`. */
  lemma OrangeExample()
    ensures HexToRgb("#FF8000") == Success([255, 128, 0])
  {
    var bs: seq<byte> := [255, 128, 0];
    assert ToHex(bs) == "FF8000" by {
      assert HexPair(255) == "FF" && HexPair(128) == "80" && HexPair(0) == "00";
      assert bs[1..] == [128, 0] && bs[1..][1..] == [0];
      assert ToHex([0]) == "00";
      assert ToHex([128, 0]) == "8000";
    }
    assert Hashes(1) + "FF8000" == "#FF8000";
    DecodeEncode(bs, 1);
  }

  /** Whitespace between digit pairs is skipped. */
  lemma SpacedPairs()
    ensures FromHex("FF 80 00") == Success([255, 128, 0])
  {
    SpacedAscii();
    SpacedTail();
    var t := "FF 80 00";
    assert t[0] == t[1] == 'F' && t[2] == ' ';
    assert PairValue('F', 'F') == 255;
    assert DecodeFrom(t, 2) == DecodeFrom(t, 3);
    assert [255] + [128, 0] == [255, 128, 0];
  }

  lemma SpacedAscii()
    ensures FirstNonAscii("FF 80 00", 0) == 8
  {
  }

  /** The second and third pairs of "FF 80 00". */
  lemma SpacedTail()
    ensures DecodeFrom("FF 80 00", 3) == Success([128, 0])
  {
    var t := "FF 80 00";
    assert t[3] == '8' && t[4] == t[6] == t[7] == '0' && t[5] == ' ';
    assert PairValue('8', '0') == 128 && PairValue('0', '0') == 0;
    assert DecodeFrom(t, 8) == Success([]);
    assert [0] + [] == [0];
    assert DecodeFrom(t, 6) == Success([0]);
    assert DecodeFrom(t, 5) == DecodeFrom(t, 6);
    assert [128] + [0] == [128, 0];
  }

  /** Whitespace before the first pair and after the last is skipped. */
  lemma EdgeSpaces()
    ensures FromHex(" FF ") == Success([255])
  {
    var t := " FF ";
    assert FirstNonAscii(t, 0) == 4;
    assert t[1] == t[2] == 'F' && IsSpace(t[0]) && IsSpace(t[3]) && !IsSpace('F');
    assert PairValue('F', 'F') == 255;
    assert DecodeFrom(t, 3) == DecodeFrom(t, 4) == Success([]);
    assert [255] + [] == [255];
    assert DecodeFrom(t, 1) == Success([255]);
  }

  /** Whitespace inside a pair is refused at its position. */
  lemma SpaceInsidePair()
    ensures FromHex("F F") == Failure(1)
  {
    assert FirstNonAscii("F F", 0) == 3;
  }

  /** A non-ASCII character is reported ahead of an earlier non-hex one. */
  lemma NonAsciiFirst()
    ensures HexToRgb("#z\U{e9}") == Failure(1)
  {
    assert LStripHash("#z\U{e9}") == "z\U{e9}";
    assert FirstNonAscii("z\U{e9}", 0) == 1;
  }
}
