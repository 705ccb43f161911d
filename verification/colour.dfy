/** The watermark colour: the `#rrggbb` value of the colour picker is cut
    into three two-character slices, each read with `parseInt(…, 16)` and
    divided by 255 before it is handed to pdf-lib's `rgb`
    (js/script.js:614-616). */
module Colour {
  import opened Wrappers
  import opened JsText

  /** The three integers `parseInt` reads; `None` is `NaN`. */
  datatype Channels = Channels(r: Option<int>, g: Option<int>, b: Option<int>)

  /** The three arguments given to `rgb`; `None` is `NaN`. */
  datatype Rgb = Rgb(r: Option<real>, g: Option<real>, b: Option<real>)

  /** Channel `k` (0 red, 1 green, 2 blue) is `parseInt` of characters
      `2k+1` and `2k+2`. */
  function Channel(hex: string, k: nat): Option<int>
    requires k < 3
  {
    ParseInt(Substring(hex, 2 * k + 1, 2 * k + 3), Hex)
  }

  /** A channel `parseInt` can produce from at most two characters: `NaN`,
      or a value in -15..255. */
  predicate ChannelRange(c: Option<int>) {
    c.Some? ==> -15 <= c.value <= 255
  }

  /** The three channels of `colorHex`. A well-formed colour gives the bytes
      its digit pairs spell; any other text still gives `NaN` or -15..255 in
      each channel. */
  function DecodeHex(hex: string): (c: Channels)
    ensures WellFormed(hex) ==> c == Channels(
      Some(PairValue(hex[1], hex[2])),
      Some(PairValue(hex[3], hex[4])),
      Some(PairValue(hex[5], hex[6])))
    ensures ChannelRange(c.r) && ChannelRange(c.g) && ChannelRange(c.b)
  {
    ChannelBounds(hex, 0);
    ChannelBounds(hex, 1);
    ChannelBounds(hex, 2);
    WellFormedChannels(hex);
    Channels(Channel(hex, 0), Channel(hex, 1), Channel(hex, 2))
  }

  /** A byte's share of full intensity, the `/ 255` of the colour code; a
      byte's share lies in [0, 1]. */
  function Share(v: int): (s: real)
    ensures 0 <= v <= 255 ==> 0.0 <= s <= 1.0
  {
    v as real / 255.0
  }

  /** Division by 255; `NaN / 255` stays `NaN`. */
  function Scale(c: Option<int>): Option<real> {
    match c
    case None => None
    case Some(v) => Some(Share(v))
  }

  /** The arguments `addWatermark` hands to `rgb`: for a well-formed colour
      each is the byte its digit pair spells divided by 255, so all three lie
      in [0, 1]; for any text each is `NaN` exactly when its channel is. */
  function ToRgb(hex: string): (rgb: Rgb)
    ensures WellFormed(hex) ==> rgb == Rgb(
      Some(Share(PairValue(hex[1], hex[2]))),
      Some(Share(PairValue(hex[3], hex[4]))),
      Some(Share(PairValue(hex[5], hex[6]))))
    ensures WellFormed(hex) ==> UnitInterval(rgb.r) && UnitInterval(rgb.g) && UnitInterval(rgb.b)
    ensures rgb.r.None? <==> DecodeHex(hex).r.None?
    ensures rgb.g.None? <==> DecodeHex(hex).g.None?
    ensures rgb.b.None? <==> DecodeHex(hex).b.None?
  {
    var c := DecodeHex(hex);
    Rgb(Scale(c.r), Scale(c.g), Scale(c.b))
  }

  predicate UnitInterval(c: Option<real>) {
    c.Some? && 0.0 <= c.value <= 1.0
  }

  /** Pure red from the colour picker is drawn with full red and no green
      or blue. */
  lemma PureRed()
    ensures ToRgb("#ff0000") == Rgb(Some(1.0), Some(0.0), Some(0.0))
  {
    var hex := "#ff0000";
    assert hex[1] == 'f' && hex[2] == 'f' && hex[3] == '0' && hex[4] == '0' && hex[5] == '0' && hex[6] == '0';
    assert WellFormed(hex);
    assert PairValue('f', 'f') == 255 && PairValue('0', '0') == 0;
  }

  // ---------------------------------------------------------------- well-formed input

  /** `#` followed by six hexadecimal digits, as a colour picker yields. */
  predicate WellFormed(hex: string) {
    |hex| == 7 && hex[0] == '#' && forall i :: 1 <= i < 7 ==> IsDigit(hex[i], 16)
  }

  function PairValue(hi: char, lo: char): (v: nat)
    requires IsDigit(hi, 16) && IsDigit(lo, 16)
    ensures v <= 255
  {
    16 * DigitValue(hi) + DigitValue(lo)
  }

  /** Two hexadecimal digits are read as the byte they spell. */
  lemma ParseHexPair(hi: char, lo: char)
    requires IsDigit(hi, 16) && IsDigit(lo, 16)
    ensures ParseInt([hi, lo], Hex) == Some(PairValue(hi, lo) as int)
  {
    var s := [hi, lo];
    ParseIntUnsigned(s, Hex);
    MagnitudeOfDigits(s, Hex);
    PairDigitsValue(hi, lo);
  }

  lemma PairDigitsValue(hi: char, lo: char)
    requires IsDigit(hi, 16) && IsDigit(lo, 16)
    ensures DigitsValue([hi, lo], 16) == PairValue(hi, lo)
  {
    assert [hi, lo][..1] == [hi] && [hi][..0] == [];
    assert DigitsValue([hi], 16) == DigitValue(hi);
  }

  /** For a well-formed colour every channel is present and is the byte its
      two characters spell. */
  lemma WellFormedChannels(hex: string)
    ensures WellFormed(hex) ==> Channel(hex, 0) == Some(PairValue(hex[1], hex[2]))
    ensures WellFormed(hex) ==> Channel(hex, 1) == Some(PairValue(hex[3], hex[4]))
    ensures WellFormed(hex) ==> Channel(hex, 2) == Some(PairValue(hex[5], hex[6]))
  {
    if WellFormed(hex) {
      assert hex[1..3] == [hex[1], hex[2]];
      assert hex[3..5] == [hex[3], hex[4]];
      assert hex[5..7] == [hex[5], hex[6]];
      ParseHexPair(hex[1], hex[2]);
      ParseHexPair(hex[3], hex[4]);
      ParseHexPair(hex[5], hex[6]);
    }
  }

  /** A channel depends only on its own two characters. */
  lemma ChannelDependsOnItsPair(hex: string, hex': string, k: nat)
    requires k < 3
    requires |hex| >= 2 * k + 3 && |hex'| >= 2 * k + 3
    requires hex[2 * k + 1..2 * k + 3] == hex'[2 * k + 1..2 * k + 3]
    ensures Channel(hex, k) == Channel(hex', k)
  {
  }

  // ---------------------------------------------------------------- any input

  /** Whatever the string, a slice of at most two characters read in base 16
      is `NaN` or lies in -15..255: a sign leaves room for one digit, and a
      `0x` prefix leaves room for none. */
  lemma ShortHexBounds(s: string)
    requires |s| <= 2
    ensures ParseInt(s, Hex).Some? ==> -15 <= ParseInt(s, Hex).value <= 255
  {
    var t := TrimStart(s);
    assert Pow(16, 0) == 1 && Pow(16, 1) == 16 && Pow(16, 2) == 256;
    if |t| > 0 && (t[0] == '-' || t[0] == '+') {
      PowMonotone(16, |t[1..]|, 1);
      MagnitudeBound(t[1..], 16);
    } else {
      PowMonotone(16, |t|, 2);
      MagnitudeBound(t, 256);
    }
  }

  lemma MagnitudeBound(u: string, limit: nat)
    requires Pow(16, |u|) <= limit
    ensures ParseMagnitude(u, Hex).Some? ==> ParseMagnitude(u, Hex).value < limit
  {
    var v := if HasHexPrefix(u) then u[2..] else u;
    var z := DigitPrefix(v, 16);
    if |z| > 0 {
      PowMonotone(16, |z|, |u|);
    }
  }

  lemma {:induction false} PowMonotone(b: nat, i: nat, j: nat)
    requires b > 0 && i <= j
    ensures Pow(b, i) <= Pow(b, j)
  {
    if i < j {
      PowMonotone(b, i, j - 1);
    }
  }

  /** Every channel of every string is `NaN` or in -15..255. */
  lemma ChannelBounds(hex: string, k: nat)
    requires k < 3
    ensures ChannelRange(Channel(hex, k))
  {
    ShortHexBounds(Substring(hex, 2 * k + 1, 2 * k + 3));
  }

  // ---------------------------------------------------------------- encoding

  function HexDigitChar(d: nat): (c: char)
    requires d < 16
    ensures IsDigit(c, 16) && DigitValue(c) == d
  {
    if d < 10 then ('0' as int + d) as char else ('a' as int + d - 10) as char
  }

  /** The lower-case `#rrggbb` text of three bytes, as the colour picker
      reports a colour. */
  function EncodeHex(r: nat, g: nat, b: nat): (hex: string)
    requires r < 256 && g < 256 && b < 256
    ensures WellFormed(hex)
  {
    ['#', HexDigitChar(r / 16), HexDigitChar(r % 16),
          HexDigitChar(g / 16), HexDigitChar(g % 16),
          HexDigitChar(b / 16), HexDigitChar(b % 16)]
  }

  /** The two digits written for a byte spell that byte. */
  lemma EncodePair(v: nat)
    requires v < 256
    ensures PairValue(HexDigitChar(v / 16), HexDigitChar(v % 16)) == v
  {
  }

  /** Decoding recovers the three bytes that were encoded. */
  lemma DecodeEncode(r: nat, g: nat, b: nat)
    requires r < 256 && g < 256 && b < 256
    ensures DecodeHex(EncodeHex(r, g, b)) == Channels(Some(r), Some(g), Some(b))
  {
    EncodePair(r);
    EncodePair(g);
    EncodePair(b);
  }

  predicate LowerCase(hex: string) {
    forall i :: 0 <= i < |hex| ==> !('A' <= hex[i] <= 'Z')
  }

  /** A lower-case hexadecimal digit is the digit written for its value. */
  lemma HexDigitCharOfValue(c: char)
    requires IsDigit(c, 16) && !('A' <= c <= 'Z')
    ensures HexDigitChar(DigitValue(c)) == c
  {
  }

  /** A well-formed lower-case colour is the encoding of the bytes it
      decodes to (`DecodeHex` gives those bytes). */
  lemma EncodeDecode(hex: string)
    requires WellFormed(hex) && LowerCase(hex)
    ensures EncodeHex(PairValue(hex[1], hex[2]), PairValue(hex[3], hex[4]), PairValue(hex[5], hex[6])) == hex
  {
    DecodePairDigits(hex, 1);
    DecodePairDigits(hex, 3);
    DecodePairDigits(hex, 5);
    assert hex == [hex[0], hex[1], hex[2], hex[3], hex[4], hex[5], hex[6]];
  }

  /** The digits written for the byte at positions `i`, `i+1` of a
      lower-case colour are the characters found there. */
  lemma DecodePairDigits(hex: string, i: nat)
    requires WellFormed(hex) && LowerCase(hex) && 1 <= i <= 5
    ensures var v := PairValue(hex[i], hex[i + 1]);
      HexDigitChar(v / 16) == hex[i] && HexDigitChar(v % 16) == hex[i + 1]
  {
    PairDigits(hex[i], hex[i + 1]);
    HexDigitCharOfValue(hex[i]);
    HexDigitCharOfValue(hex[i + 1]);
  }

  lemma PairDigits(hi: char, lo: char)
    requires IsDigit(hi, 16) && IsDigit(lo, 16)
    ensures PairValue(hi, lo) / 16 == DigitValue(hi) && PairValue(hi, lo) % 16 == DigitValue(lo)
  {
  }
}
