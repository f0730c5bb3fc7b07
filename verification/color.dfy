/** The colour helpers: the red-to-green spectrum, the six-digit hex colour codec of
    section 5.2 of CSS Color Module Level 4 (only the six-digit form), lightening and
    darkening, the flag palettes and the contrasting text colour.
    Percentages and blend amounts are exact rationals; channels are integers. */
module ColorSpectrum {
  import opened Wrappers
  import opened Text
  import opened Hex
  import opened Questions
  import opened Int32

  datatype Rgb = Rgb(r: int, g: int, b: int) {
    predicate InRange() {
      0 <= r < 256 && 0 <= g < 256 && 0 <= b < 256
    }
  }

  /** `Math.round`: the nearest integer, a half rounded up. */
  function Round(x: real): (n: int)
    ensures n as real - 0.5 <= x < n as real + 0.5
  {
    (x + 0.5).Floor
  }

  lemma MulNonneg(a: real, b: real)
    requires a >= 0.0 && b >= 0.0
    ensures a * b >= 0.0
  {
  }

  lemma RoundMonotone(x: real, y: real)
    requires x <= y
    ensures Round(x) <= Round(y)
  {
  }

  /** `Math.max(0, Math.min(100, p))`. */
  function Clamp(p: real): (c: real)
    ensures 0.0 <= c <= 100.0
    ensures 0.0 <= p <= 100.0 ==> c == p
    ensures p < 0.0 ==> c == 0.0
    ensures p > 100.0 ==> c == 100.0
  {
    if p < 0.0 then 0.0 else if p > 100.0 then 100.0 else p
  }

  // ---------------------------------------------------------------------------
  // The hex codec

  /** The canonical form: `#` and two lower-case hex digits per channel. */
  function Encode(c: Rgb): (s: string)
    requires c.InRange()
    ensures |s| == 7 && s[0] == '#' && AllLowerHex(s[1..])
  {
    "#" + Fixed(c.r, 2) + Fixed(c.g, 2) + Fixed(c.b, 2)
  }

  /** What the colour pattern accepts: an optional `#`, then exactly six hex digits of
      either case. */
  predicate IsHexColor(s: string) {
    || (|s| == 7 && s[0] == '#' && forall i | 1 <= i < 7 :: IsHexDigit(s[i]))
    || (|s| == 6 && forall i | 0 <= i < 6 :: IsHexDigit(s[i]))
  }

  /** The six digits of an accepted colour. */
  function Digits(s: string): (d: string)
    requires IsHexColor(s)
    ensures |d| == 6 && forall i | 0 <= i < 6 :: IsHexDigit(d[i])
  {
    if |s| == 7 then s[1..] else s
  }

  function HexToRgb(s: string): (r: Option<Rgb>)
    ensures r.Some? <==> IsHexColor(s)
    ensures r.Some? ==> r.value.InRange()
    ensures r.Some? ==>
      var d := Digits(s);
      && r.value.r == ValueOfDigits(d[0..2])
      && r.value.g == ValueOfDigits(d[2..4])
      && r.value.b == ValueOfDigits(d[4..6])
  {
    var d := if |s| == 7 && s[0] == '#' then s[1..] else s;
    if |d| == 6 && forall i | 0 <= i < 6 :: IsHexDigit(d[i]) then
      assert d[0..2] == [d[0], d[1]] && d[2..4] == [d[2], d[3]] && d[4..6] == [d[4], d[5]];
      PairValue(d[0..2]);
      PairValue(d[2..4]);
      PairValue(d[4..6]);
      Some(Rgb(ValueOfDigits(d[0..2]), ValueOfDigits(d[2..4]), ValueOfDigits(d[4..6])))
    else
      None
  }

  /** The canonical form of a colour reads back as that colour. */
  lemma DecodeEncode(c: Rgb)
    requires c.InRange()
    ensures HexToRgb(Encode(c)) == Some(c)
  {
    var s := Encode(c);
    assert Digits(s) == Fixed(c.r, 2) + Fixed(c.g, 2) + Fixed(c.b, 2);
    assert Digits(s)[0..2] == Fixed(c.r, 2);
    assert Digits(s)[2..4] == Fixed(c.g, 2);
    assert Digits(s)[4..6] == Fixed(c.b, 2);
    FixedRoundTrip(c.r, 2);
    FixedRoundTrip(c.g, 2);
    FixedRoundTrip(c.b, 2);
  }

  /** The lower-case form of a string of hex digits. */
  function LowerDigits(d: string): (l: string)
    requires forall i | 0 <= i < |d| :: IsHexDigit(d[i])
    ensures |l| == |d| && forall i | 0 <= i < |d| :: l[i] == LowerDigit(d[i])
  {
    seq(|d|, i requires 0 <= i < |d| => LowerDigit(d[i]))
  }

  /** An accepted colour, read and written canonically, is `#` and its own digits in
      lower case. */
  lemma EncodeDecode(s: string)
    requires IsHexColor(s)
    ensures Encode(HexToRgb(s).value) == "#" + LowerDigits(Digits(s))
  {
    EncodeOfDigits(Digits(s));
  }

  /** Six hex digits read pairwise and written back are the same digits in lower case. */
  lemma EncodeOfDigits(d: string)
    requires |d| == 6 && forall i | 0 <= i < 6 :: IsHexDigit(d[i])
    ensures ValueOfDigits(d[0..2]) < 256 && ValueOfDigits(d[2..4]) < 256 && ValueOfDigits(d[4..6]) < 256
    ensures Encode(Rgb(ValueOfDigits(d[0..2]), ValueOfDigits(d[2..4]), ValueOfDigits(d[4..6]))) == "#" + LowerDigits(d)
  {
    assert d[0..2] == [d[0], d[1]] && d[2..4] == [d[2], d[3]] && d[4..6] == [d[4], d[5]];
    EncodeOfPairs(d[0..2], d[2..4], d[4..6]);
    var l := LowerDigits(d);
    assert l == [l[0], l[1]] + [l[2], l[3]] + [l[4], l[5]];
  }

  lemma EncodeOfPairs(x: string, y: string, z: string)
    requires |x| == 2 && IsHexDigit(x[0]) && IsHexDigit(x[1])
    requires |y| == 2 && IsHexDigit(y[0]) && IsHexDigit(y[1])
    requires |z| == 2 && IsHexDigit(z[0]) && IsHexDigit(z[1])
    ensures ValueOfDigits(x) < 256 && ValueOfDigits(y) < 256 && ValueOfDigits(z) < 256
    ensures Encode(Rgb(ValueOfDigits(x), ValueOfDigits(y), ValueOfDigits(z)))
         == "#" + [LowerDigit(x[0]), LowerDigit(x[1])] + [LowerDigit(y[0]), LowerDigit(y[1])] + [LowerDigit(z[0]), LowerDigit(z[1])]
  {
    FixedOfPair(x);
    FixedOfPair(y);
    FixedOfPair(z);
  }

  // ---------------------------------------------------------------------------
  // rgbToHex with JavaScript's 32-bit shifts

  /** `"#" + ((1 << 24) + (r << 16) + (g << 8) + b).toString(16).slice(1)`. */
  function RgbToHex(r: int, g: int, b: int): (s: string)
    ensures |s| >= 1 && s[0] == '#'
    ensures Rgb(r, g, b).InRange() ==> s == Encode(Rgb(r, g, b))
  {
    var v := ShiftLeft(1, 24) + ShiftLeft(r, 16) + ShiftLeft(g, 8) + b;
    var digits := ToHexSigned(v);
    if Rgb(r, g, b).InRange() then
      CanonicalValue(r, g, b);
      "#" + digits[1..]
    else
      "#" + digits[1..]
  }

  lemma CanonicalValue(r: int, g: int, b: int)
    requires Rgb(r, g, b).InRange()
    ensures ToHexSigned(ShiftLeft(1, 24) + ShiftLeft(r, 16) + ShiftLeft(g, 8) + b)
         == "1" + Fixed(r, 2) + Fixed(g, 2) + Fixed(b, 2)
  {
    ShiftBytes(r, g);
    ToHexOfBytes(r, g, b, ShiftLeft(1, 24) + ShiftLeft(r, 16) + ShiftLeft(g, 8) + b);
  }

  /** Colours in range survive writing and reading back. */
  lemma RgbRoundTrip(r: int, g: int, b: int)
    requires Rgb(r, g, b).InRange()
    ensures HexToRgb(RgbToHex(r, g, b)) == Some(Rgb(r, g, b))
  {
    DecodeEncode(Rgb(r, g, b));
  }

  // ---------------------------------------------------------------------------
  // The spectrum

  /** The channels of `perc2color`: red stays full and green rises up to 50%, then green
      stays full and red falls. */
  function SpectrumChannels(p: real): (c: Rgb)
    ensures c.InRange() && c.b == 0
    ensures Clamp(p) < 50.0 ==> c.r == 255
    ensures Clamp(p) >= 50.0 ==> c.g == 255
  {
    var q := Clamp(p);
    if q < 50.0 then Rgb(255, Round(51.0 * q / 10.0), 0)
    else Rgb(Round(510.0 - 51.0 * q / 10.0), 255, 0)
  }

  /** The last `k` characters, as `slice(-k)` takes them. */
  function LastChars(s: string, k: nat): (r: string)
    ensures |r| == if |s| <= k then |s| else k
  {
    if |s| <= k then s else s[|s| - k..]
  }

  function Perc2Color(p: real): (s: string)
    ensures s == Encode(SpectrumChannels(p))
    ensures HexToRgb(s) == Some(SpectrumChannels(p))
  {
    DecodeEncode(SpectrumChannels(p));
    HexOfChannels(SpectrumChannels(p))
  }

  /** The second half of `perc2color`: the channels packed into one number and written
      as six hex digits, zero-padded in front. */
  function HexOfChannels(c: Rgb): (s: string)
    requires c.InRange()
    ensures s == Encode(c)
  {
    var h := c.r * 0x10000 + c.g * 0x100 + c.b * 0x1;
    SpectrumDigits(c);
    "#" + LastChars("000000" + ToHex(h), 6)
  }

  lemma SpectrumDigits(c: Rgb)
    requires c.InRange()
    ensures "#" + LastChars("000000" + ToHex(c.r * 0x10000 + c.g * 0x100 + c.b * 0x1), 6) == Encode(c)
  {
    var h := c.r * 0x10000 + c.g * 0x100 + c.b * 0x1;
    FixedOfBytes(c.r, c.g, c.b, h);
    PaddedSix(h);
  }

  /** Six places of zero padding, cut to the last six, give the six-digit form. */
  lemma PaddedSix(h: nat)
    requires h < 0x100_0000
    ensures LastChars("000000" + ToHex(h), 6) == Fixed(h, 6)
  {
    Pow16Values();
    PaddedToHex(h, 6);
    var x := ToHex(h);
    assert "000000" == Zeros(6);
    LastOfPadded(x);
  }

  lemma LastOfPadded(x: string)
    requires |x| <= 6
    ensures LastChars(Zeros(6) + x, 6) == Zeros(6 - |x|) + x
  {
    var s := Zeros(6) + x;
    assert forall i | 0 <= i < 6 :: s[|x|..][i] == (Zeros(6 - |x|) + x)[i];
  }

  /** Every percentage at or below 0 gives the colour of 0, every one at or above 100 the
      colour of 100. */
  lemma Perc2ColorClamps(p: real)
    ensures p <= 0.0 ==> Perc2Color(p) == Perc2Color(0.0)
    ensures p >= 100.0 ==> Perc2Color(p) == Perc2Color(100.0)
  {
    if p <= 0.0 {
      assert SpectrumChannels(p) == SpectrumChannels(0.0);
    } else if p >= 100.0 {
      assert SpectrumChannels(p) == SpectrumChannels(100.0);
    }
  }

  lemma SpectrumEndpoints()
    ensures SpectrumChannels(0.0) == Rgb(255, 0, 0)
    ensures SpectrumChannels(50.0) == Rgb(255, 255, 0)
    ensures SpectrumChannels(100.0) == Rgb(0, 255, 0)
  {
    assert Round(0.0) == 0;
    assert Round(255.0) == 255;
  }

  lemma FixedOfByteEnds()
    ensures Fixed(255, 2) == "ff" && Fixed(0, 2) == "00"
  {
    assert Fixed(255, 2) == Fixed(15, 1) + [DigitOf(15)];
    assert Fixed(0, 2) == Fixed(0, 1) + [DigitOf(0)];
  }

  /** A spectrum colour with full or empty red and green channels. */
  lemma Perc2ColorOfEnds(p: real, x: int, y: int)
    requires x == 0 || x == 255
    requires y == 0 || y == 255
    requires SpectrumChannels(p) == Rgb(x, y, 0)
    ensures Perc2Color(p) == "#" + Fixed(x, 2) + Fixed(y, 2) + "00"
  {
    FixedOfByteEnds();
  }

  lemma EndCodes()
    ensures "#" + Fixed(255, 2) + Fixed(0, 2) + "00" == "#ff0000"
    ensures "#" + Fixed(255, 2) + Fixed(255, 2) + "00" == "#ffff00"
    ensures "#" + Fixed(0, 2) + Fixed(255, 2) + "00" == "#00ff00"
  {
    FixedOfByteEnds();
  }

  /** Pure red at 0, yellow at 50, pure green at 100. */
  lemma Perc2ColorEndpoints()
    ensures Perc2Color(0.0) == "#ff0000"
    ensures Perc2Color(50.0) == "#ffff00"
    ensures Perc2Color(100.0) == "#00ff00"
  {
    SpectrumEndpoints();
    EndCodes();
    Perc2ColorOfEnds(0.0, 255, 0);
    Perc2ColorOfEnds(50.0, 255, 255);
    Perc2ColorOfEnds(100.0, 0, 255);
  }

  /** As the percentage grows, red never rises and green never falls. */
  lemma SpectrumMonotone(p1: real, p2: real)
    requires p1 <= p2
    ensures SpectrumChannels(p1).r >= SpectrumChannels(p2).r
    ensures SpectrumChannels(p1).g <= SpectrumChannels(p2).g
  {
    var q1, q2 := Clamp(p1), Clamp(p2);
    if q1 < 50.0 && q2 < 50.0 {
      RoundMonotone(51.0 * q1 / 10.0, 51.0 * q2 / 10.0);
    } else if q1 >= 50.0 && q2 >= 50.0 {
      RoundMonotone(510.0 - 51.0 * q2 / 10.0, 510.0 - 51.0 * q1 / 10.0);
    }
  }

  /** `getColorForScore`: the spectrum colour of the score as a percentage. */
  function GetColorForScore(score: real, maxScore: real): (s: string)
    requires maxScore != 0.0
    ensures s == Encode(SpectrumChannels(score / maxScore * 100.0))
    ensures HexToRgb(s) == Some(SpectrumChannels(score / maxScore * 100.0))
  {
    Perc2Color(score / maxScore * 100.0)
  }

  /** Out of 30: no points is red, half is yellow, all is green. */
  lemma GetColorForScoreExamples()
    ensures GetColorForScore(0.0, 30.0) == "#ff0000"
    ensures GetColorForScore(15.0, 30.0) == "#ffff00"
    ensures GetColorForScore(30.0, 30.0) == "#00ff00"
  {
    Perc2ColorEndpoints();
  }

  // ---------------------------------------------------------------------------
  // Blending

  /** A channel moved towards 255 by `amount`: the blend rounded, capped at 255. */
  function LightenChannel(v: int, amount: real): (n: int)
    ensures n <= 255
    ensures 0 <= v <= 255 && 0.0 <= amount <= 1.0 ==> v <= n
    ensures var y := v as real + (255 - v) as real * amount;
      && (y < 254.5 ==> n as real - 0.5 <= y < n as real + 0.5)
      && (y >= 254.5 ==> n == 255)
  {
    var y := v as real + (255 - v) as real * amount;
    var x := Round(y);
    if 0 <= v <= 255 && 0.0 <= amount <= 1.0 then
      MulNonneg((255 - v) as real, amount);
      RoundMonotone(v as real, y);
      if x < 255 then x else 255
    else
      if x < 255 then x else 255
  }

  /** A channel scaled towards 0 by `amount`: the product rounded, floored at 0. */
  function DarkenChannel(v: int, amount: real): (n: int)
    ensures n >= 0
    ensures 0 <= v <= 255 && 0.0 <= amount <= 1.0 ==> n <= v
    ensures var y := v as real * (1.0 - amount);
      && (y >= 0.5 ==> n as real - 0.5 <= y < n as real + 0.5)
      && (y < 0.5 ==> n == 0)
  {
    var y := v as real * (1.0 - amount);
    var x := Round(y);
    if 0 <= v <= 255 && 0.0 <= amount <= 1.0 then
      MulNonneg(v as real, amount);
      RoundMonotone(y, v as real);
      if x > 0 then x else 0
    else
      if x > 0 then x else 0
  }

  /** A larger amount lightens at least as much. */
  lemma LightenMonotone(v: int, a1: real, a2: real)
    requires v <= 255 && a1 <= a2
    ensures LightenChannel(v, a1) <= LightenChannel(v, a2)
  {
    assert (255 - v) as real * a1 <= (255 - v) as real * a2;
    RoundMonotone(v as real + (255 - v) as real * a1, v as real + (255 - v) as real * a2);
  }

  /** A larger amount darkens at least as much. */
  lemma DarkenMonotone(v: int, a1: real, a2: real)
    requires v >= 0 && a1 <= a2
    ensures DarkenChannel(v, a2) <= DarkenChannel(v, a1)
  {
    assert v as real * (1.0 - a2) <= v as real * (1.0 - a1);
    RoundMonotone(v as real * (1.0 - a2), v as real * (1.0 - a1));
  }

  /** Each channel lightened by `amount`. */
  function LightenRgb(c: Rgb, amount: real): (d: Rgb)
    ensures c.InRange() && 0.0 <= amount <= 1.0 ==> d.InRange() && Below(c, d)
  {
    Rgb(LightenChannel(c.r, amount), LightenChannel(c.g, amount), LightenChannel(c.b, amount))
  }

  /** Each channel darkened by `amount`. */
  function DarkenRgb(c: Rgb, amount: real): (d: Rgb)
    ensures c.InRange() && 0.0 <= amount <= 1.0 ==> d.InRange() && Below(d, c)
  {
    Rgb(DarkenChannel(c.r, amount), DarkenChannel(c.g, amount), DarkenChannel(c.b, amount))
  }

  /** `lightenColor`: an unreadable colour is returned as it is; a readable one, for an
      amount in [0, 1], becomes the canonical form of its lightened channels. */
  function LightenColor(hex: string, amount: real): (s: string)
    ensures HexToRgb(hex).None? ==> s == hex
    ensures HexToRgb(hex).Some? && 0.0 <= amount <= 1.0 ==>
      var c := HexToRgb(hex).value;
      && LightenRgb(c, amount).InRange()
      && s == Encode(LightenRgb(c, amount))
      && HexToRgb(s) == Some(LightenRgb(c, amount))
      && var d := HexToRgb(s).value;
      && c.r <= d.r <= 255 && c.g <= d.g <= 255 && c.b <= d.b <= 255
  {
    match HexToRgb(hex)
    case None => hex
    case Some(c) =>
      var n := LightenRgb(c, amount);
      if 0.0 <= amount <= 1.0 then
        RgbRoundTrip(n.r, n.g, n.b);
        RgbToHex(n.r, n.g, n.b)
      else
        RgbToHex(n.r, n.g, n.b)
  }

  /** `darkenColor`: an unreadable colour is returned as it is; a readable one, for an
      amount in [0, 1], becomes the canonical form of its darkened channels. */
  function DarkenColor(hex: string, amount: real): (s: string)
    ensures HexToRgb(hex).None? ==> s == hex
    ensures HexToRgb(hex).Some? && 0.0 <= amount <= 1.0 ==>
      var c := HexToRgb(hex).value;
      && DarkenRgb(c, amount).InRange()
      && s == Encode(DarkenRgb(c, amount))
      && HexToRgb(s) == Some(DarkenRgb(c, amount))
      && var d := HexToRgb(s).value;
      && 0 <= d.r <= c.r && 0 <= d.g <= c.g && 0 <= d.b <= c.b
  {
    match HexToRgb(hex)
    case None => hex
    case Some(c) =>
      var n := DarkenRgb(c, amount);
      if 0.0 <= amount <= 1.0 then
        RgbRoundTrip(n.r, n.g, n.b);
        RgbToHex(n.r, n.g, n.b)
      else
        RgbToHex(n.r, n.g, n.b)
  }

  /** `getColorWithAlpha`, with the alpha already written out as text. */
  function GetColorWithAlpha(hex: string, alpha: string): (s: string)
    ensures HexToRgb(hex).None? ==> s == hex
    ensures HexToRgb(hex).Some? ==> |s| > 5 + |alpha| && s[..5] == "rgba(" && s[|s| - |alpha| - 1..] == alpha + ")"
  {
    match HexToRgb(hex)
    case None => hex
    case Some(c) =>
      "rgba(" + NatToDecimal(c.r) + ", " + NatToDecimal(c.g) + ", " + NatToDecimal(c.b) + ", " + alpha + ")"
  }

  /** The canonical form of a colour is written back as its three channels in decimal. */
  lemma AlphaOfEncoded(c: Rgb, alpha: string)
    requires c.InRange()
    ensures GetColorWithAlpha(Encode(c), alpha)
         == "rgba(" + NatToDecimal(c.r) + ", " + NatToDecimal(c.g) + ", " + NatToDecimal(c.b) + ", " + alpha + ")"
  {
    DecodeEncode(c);
  }

  // ---------------------------------------------------------------------------
  // Flag palettes

  function BaseColor(f: Flag): string {
    match f
    case GreenFlag => "#22C55E"
    case YellowFlag => "#EAB308"
    case RedFlag => "#EF4444"
  }

  lemma BaseColorsParse(f: Flag)
    ensures IsHexColor(BaseColor(f))
  {
  }

  datatype FlagColors = FlagColors(primary: string, light: string, lighter: string, dark: string, darker: string)

  /** The shades of a readable colour `p`, each in canonical form: `p` lightened by 0.3
      and 0.6 and darkened by 0.2 and 0.4. */
  predicate ShadesOf(c: FlagColors, p: Rgb)
    requires p.InRange()
  {
    && c.light == Encode(LightenRgb(p, 0.3)) && c.lighter == Encode(LightenRgb(p, 0.6))
    && c.dark == Encode(DarkenRgb(p, 0.2)) && c.darker == Encode(DarkenRgb(p, 0.4))
  }

  /** Every colour of the palette is readable, and the channels run from darker through
      dark, primary and light to lighter. */
  predicate Ordered(c: FlagColors) {
    && HexToRgb(c.primary).Some? && HexToRgb(c.light).Some? && HexToRgb(c.lighter).Some?
    && HexToRgb(c.dark).Some? && HexToRgb(c.darker).Some?
    && Below(HexToRgb(c.darker).value, HexToRgb(c.dark).value)
    && Below(HexToRgb(c.dark).value, HexToRgb(c.primary).value)
    && Below(HexToRgb(c.primary).value, HexToRgb(c.light).value)
    && Below(HexToRgb(c.light).value, HexToRgb(c.lighter).value)
  }

  /** The palette of a flag key: its base colour, an unknown key getting red's, and the
      shades of that colour, ordered from darker to lighter. */
  function GetFlagColors(flagType: string): (c: FlagColors)
    ensures c.primary == BaseColor(ParseFlag(flagType).GetOr(RedFlag))
    ensures HexToRgb(c.primary).Some? && ShadesOf(c, HexToRgb(c.primary).value)
    ensures Ordered(c)
  {
    var base := match ParseFlag(flagType)
      case Some(f) => BaseColor(f)
      case None => BaseColor(RedFlag);
    var c := FlagColors(base, LightenColor(base, 0.3), LightenColor(base, 0.6), DarkenColor(base, 0.2), DarkenColor(base, 0.4));
    BaseColorsParse(ParseFlag(flagType).GetOr(RedFlag));
    PaletteOrdered(c, base);
    c
  }

  lemma PaletteOrdered(c: FlagColors, base: string)
    requires IsHexColor(base)
    requires c == FlagColors(base, LightenColor(base, 0.3), LightenColor(base, 0.6), DarkenColor(base, 0.2), DarkenColor(base, 0.4))
    ensures HexToRgb(c.primary).Some? && ShadesOf(c, HexToRgb(c.primary).value)
    ensures Ordered(c)
  {
    var p := HexToRgb(base).value;
    LightenMonotone(p.r, 0.3, 0.6); LightenMonotone(p.g, 0.3, 0.6); LightenMonotone(p.b, 0.3, 0.6);
    DarkenMonotone(p.r, 0.2, 0.4); DarkenMonotone(p.g, 0.2, 0.4); DarkenMonotone(p.b, 0.2, 0.4);
  }

  /** Channel-wise order of two colours. */
  predicate Below(a: Rgb, b: Rgb) {
    a.r <= b.r && a.g <= b.g && a.b <= b.b
  }

  // ---------------------------------------------------------------------------
  // Text colour

  /** Black text on a light background, white text on a dark one, by the luma weights
      0.299, 0.587 and 0.114; black when the colour cannot be read. */
  function GetTextColorForBackground(background: string): (s: string)
    ensures HexToRgb(background).None? ==> s == "#000000"
    ensures HexToRgb(background).Some? ==>
      var c := HexToRgb(background).value;
      && (s == "#000000" <==> 299 * c.r + 587 * c.g + 114 * c.b > 127500)
      && (s != "#000000" ==> s == "#FFFFFF")
  {
    match HexToRgb(background)
    case None => "#000000"
    case Some(c) =>
      var luminance := (0.299 * c.r as real + 0.587 * c.g as real + 0.114 * c.b as real) / 255.0;
      if luminance > 0.5 then "#000000" else "#FFFFFF"
  }

  /** White gets black text and black gets white text. */
  lemma TextColorExtremes()
    ensures GetTextColorForBackground("#FFFFFF") == "#000000"
    ensures GetTextColorForBackground("#000000") == "#FFFFFF"
  {
    var w, k := "#FFFFFF", "#000000";
    assert IsHexColor(w) && IsHexColor(k);
    assert Digits(w)[0..2] == Digits(w)[2..4] == Digits(w)[4..6] == "FF";
    assert Digits(k)[0..2] == Digits(k)[2..4] == Digits(k)[4..6] == "00";
    PairValue("FF");
    PairValue("00");
  }
}
