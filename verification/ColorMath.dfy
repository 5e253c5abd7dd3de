/**
 Colour conversions over the reals. `powf` is a parameter constrained only by what x^(1/2.4) means:
 its twelfth power is the fifth power of its argument.
 */
module ColorMath {

  datatype Rgb = Rgb(r: int, g: int, b: int)

  function Clamp(x: real, lo: real, hi: real): real {
    if x < lo then lo else if x > hi then hi else x
  }

  function Max(x: real, y: real): real {
    if x > y then x else y
  }

  // ----- brightness and white mix -----

  /** CIE 1931 relative luminance of a level. */
  function CieBrightness(level: int): real {
    if level == 0 then 0.0
    else
      var lstar := level as real / 254.0 * 100.0;
      if lstar <= 8.0 then lstar / 903.3
      else
        var t := (lstar + 16.0) / 116.0;
        t * t * t
  }

  lemma CubeMonotone(s: real, t: real)
    requires 0.0 <= s < t
    ensures s * s * s < t * t * t
  {
    assert s * s <= s * t <= t * t;
    assert s * s * s <= t * t * s;
    assert t * t * s < t * t * t by {
      assert t * t > 0.0;
      assert t * t * (t - s) > 0.0;
    }
  }

  /** Strictly increasing, and within [0, 1] exactly on the levels the cluster can hold. */
  lemma CieIncreasing(i: int, j: int)
    requires 0 <= i < j
    ensures CieBrightness(i) < CieBrightness(j)
  {
    var s, t := i as real / 254.0 * 100.0, j as real / 254.0 * 100.0;
    if s > 8.0 {
      CubeMonotone((s + 16.0) / 116.0, (t + 16.0) / 116.0);
    } else if t > 8.0 {
      CubeMonotone(24.0 / 116.0, (t + 16.0) / 116.0);
      assert 8.0 / 903.3 < 24.0 / 116.0 * (24.0 / 116.0) * (24.0 / 116.0);
    }
  }

  lemma CieRange(level: int)
    requires level >= 0
    ensures 0.0 <= CieBrightness(level)
    ensures CieBrightness(level) <= 1.0 <==> level <= 254
  {
    assert CieBrightness(254) == 1.0;
    assert CieBrightness(0) == 0.0;
    if level > 0 {
      CieIncreasing(0, level);
    }
    if level < 254 {
      CieIncreasing(level, 254);
    } else if level > 254 {
      CieIncreasing(254, level);
    }
  }

  /** L* is linear in the level, 100 at 254; the luminance Y has L* = 903.3*Y up to 8, and 116*Y^(1/3) - 16 above. */
  lemma CieIsLightness(level: int)
    requires 0 <= level <= 255
    ensures level <= 20 ==> 903.3 * CieBrightness(level) == level as real * 100.0 / 254.0
    ensures level > 20 ==>
              var t := (level as real * 100.0 / 254.0 + 16.0) / 116.0;
              CieBrightness(level) == t * t * t
    ensures CieBrightness(127) == (66.0 / 116.0) * (66.0 / 116.0) * (66.0 / 116.0)
  {
    var lstar := level as real / 254.0 * 100.0;
    assert lstar == level as real * 100.0 / 254.0;
  }

  /** The shares of the warm and the cool strip. */
  function CtMix(mireds: int, cool: int, warm: int): (mix: (real, real))
    requires cool < warm
    ensures mix.0 + mix.1 == 1.0 && 0.0 <= mix.0 <= 1.0
  {
    var m := if mireds < cool then cool else mireds;
    var m' := if m > warm then warm else m;
    var f := (m' as real - cool as real) / (warm as real - cool as real);
    ShareInUnit(m' as real - cool as real, warm as real - cool as real);
    (f, 1.0 - f)
  }

  /** The warm share is linear in the mireds between the two strips, and all or nothing outside. */
  lemma CtMixIsLinear(mireds: int, cool: int, warm: int)
    requires cool < warm
    ensures mireds <= cool ==> CtMix(mireds, cool, warm) == (0.0, 1.0)
    ensures mireds >= warm ==> CtMix(mireds, cool, warm) == (1.0, 0.0)
    ensures cool <= mireds <= warm ==> CtMix(mireds, cool, warm).0 * (warm - cool) as real == (mireds - cool) as real
  {
    var span := warm as real - cool as real;
    assert span / span == 1.0 && 0.0 / span == 0.0;
    if cool <= mireds <= warm {
      assert CtMix(mireds, cool, warm).0 == (mireds as real - cool as real) / span;
    }
  }

  lemma ShareInUnit(part: real, whole: real)
    requires 0.0 <= part <= whole && whole > 0.0
    ensures 0.0 <= part / whole <= 1.0
  {
  }

  // ----- hue and saturation -----

  function HsvToRgb(hue: int, sat: int): Rgb
    requires 0 <= hue < 256 && 0 <= sat < 256
  {
    if sat == 0 then Rgb(255, 255, 255)
    else
      var region := hue / 43;
      var remainder := (hue - region * 43) * 6;
      var p := (255 * (255 - sat)) / 256;
      var q := (255 * (255 - (sat * remainder) / 256)) / 256;
      var t := (255 * (255 - (sat * (255 - remainder)) / 256)) / 256;
      match region
      case 0 => Rgb(255, t, p)
      case 1 => Rgb(q, 255, p)
      case 2 => Rgb(p, 255, t)
      case 3 => Rgb(p, q, 255)
      case 4 => Rgb(t, p, 255)
      case _ => Rgb(255, p, q)
  }

  /** Some channel is full, every channel fits a byte, and no intermediate leaves the 8-bit range. */
  lemma HsvSaturates(hue: int, sat: int)
    requires 0 <= hue < 256 && 0 <= sat < 256
    ensures Saturated(HsvToRgb(hue, sat)) && InByteRange(HsvToRgb(hue, sat))
  {
    var region := hue / 43;
    var remainder := (hue - region * 43) * 6;
    assert 0 <= region <= 5;
    assert 0 <= remainder <= 252;
    ProductFits(sat, remainder);
    ProductFits(sat, 255 - remainder);
  }

  /**
   The six sectors of the hue circle: which channel is full, which is at its lowest, and how the third
   rises through the even sectors and falls through the odd ones, never reaching full.
   */
  lemma HsvSectors(hue: int, sat: int)
    requires 0 <= hue < 256 && 0 < sat < 256
    ensures var c, low := HsvToRgb(hue, sat), (255 * (255 - sat)) / 256;
            var k, step := hue / 43, 6 * (hue % 43);
            var up := (255 * (255 - (sat * (255 - step)) / 256)) / 256;
            var down := (255 * (255 - (sat * step) / 256)) / 256;
            && low <= up <= 254 && low <= down <= 254
            && c == if k == 0 then Rgb(255, up, low)
                    else if k == 1 then Rgb(down, 255, low)
                    else if k == 2 then Rgb(low, 255, up)
                    else if k == 3 then Rgb(low, down, 255)
                    else if k == 4 then Rgb(up, low, 255)
                    else Rgb(255, low, down)
    ensures HsvToRgb(hue, 0) == Rgb(255, 255, 255)
  {
    var step := 6 * (hue % 43);
    assert hue % 43 == hue - hue / 43 * 43;
    RampRange(sat, step);
    RampRange(sat, 255 - step);
  }

  lemma RampRange(sat: int, fade: int)
    requires 0 <= sat < 256 && 0 <= fade < 256
    ensures (255 * (255 - sat)) / 256 <= (255 * (255 - (sat * fade) / 256)) / 256 <= 254
  {
    ProductFits(sat, fade);
    assert sat * fade <= sat * 256;
  }

  lemma ProductFits(a: int, b: int)
    requires 0 <= a <= 255 && 0 <= b <= 255
    ensures 0 <= (a * b) / 256 <= 255
  {
    assert 0 <= a * b <= 255 * b;
  }

  predicate InByteRange(c: Rgb) {
    0 <= c.r <= 255 && 0 <= c.g <= 255 && 0 <= c.b <= 255
  }

  predicate Saturated(c: Rgb) {
    c.r == 255 || c.g == 255 || c.b == 255
  }

  // ----- chromaticity -----

  function RealPow(x: real, n: nat): real {
    if n == 0 then 1.0 else x * RealPow(x, n - 1)
  }

  /** `pow` is x^(1/2.4) on the unit interval. */
  ghost predicate IsGammaPower(pow: real -> real) {
    forall c :: 0.0 <= c <= 1.0 ==> pow(c) >= 0.0 && RealPow(pow(c), 12) == RealPow(c, 5)
  }

  lemma {:induction false} RealPowMonotone(x: real, y: real, n: nat)
    requires 0.0 <= x <= y
    ensures 0.0 <= RealPow(x, n) <= RealPow(y, n)
    ensures x < y && n > 0 ==> RealPow(x, n) < RealPow(y, n)
  {
    if n == 0 {
    } else {
      RealPowMonotone(x, y, n - 1);
      ProductMonotone(x, RealPow(x, n - 1), y, RealPow(y, n - 1));
      if x < y {
        RealPowPositive(y, n - 1);
        ProductStrict(x, RealPow(x, n - 1), y, RealPow(y, n - 1));
      }
    }
  }

  lemma {:induction false} RealPowPositive(x: real, n: nat)
    requires x > 0.0
    ensures RealPow(x, n) > 0.0
  {
    if n > 0 {
      RealPowPositive(x, n - 1);
    }
  }

  lemma ProductMonotone(a: real, b: real, c: real, d: real)
    requires 0.0 <= a <= c && 0.0 <= b <= d
    ensures 0.0 <= a * b <= c * d
  {
    assert a * b <= c * b <= c * d;
  }

  lemma ProductStrict(a: real, b: real, c: real, d: real)
    requires 0.0 <= a < c && 0.0 <= b <= d && d > 0.0
    ensures a * b < c * d
  {
    assert a * b <= a * d;
    assert (c - a) * d > 0.0;
  }

  lemma GammaPowerMonotone(pow: real -> real, c: real, d: real)
    requires IsGammaPower(pow) && 0.0 <= c <= d <= 1.0
    ensures pow(c) <= pow(d)
  {
    RealPowMonotone(c, d, 5);
    if pow(d) < pow(c) {
      RealPowMonotone(pow(d), pow(c), 12);
    }
  }

  function SrgbGamma(pow: real -> real, c: real): real {
    if c <= 0.00304 then 12.92 * c else 1.055 * pow(c) - 0.055
  }

  /** The curve is nondecreasing on [0, 1], across its knee too, and fixes both ends. */
  lemma GammaMonotone(pow: real -> real, c: real, d: real)
    requires IsGammaPower(pow) && 0.0 <= c <= d <= 1.0
    ensures SrgbGamma(pow, c) <= SrgbGamma(pow, d)
  {
    GammaPowerMonotone(pow, c, d);
    if c <= 0.00304 < d {
      GammaPowerMonotone(pow, 0.00304, d);
      KneeHeight(pow);
    }
  }

  lemma KneeHeight(pow: real -> real)
    requires IsGammaPower(pow)
    ensures pow(0.00304) >= 0.08937
  {
    var v := pow(0.00304);
    if v < 0.08937 {
      RealPowMonotone(v, 0.08937, 12);
      KneeNumbers();
    }
  }

  lemma KneeNumbers()
    ensures RealPow(0.08937, 12) < RealPow(0.00304, 5)
  {
    var x := 0.08937;
    var x3 := x * x * x;
    assert RealPow(x, 3) == x * (x * (x * 1.0)) == x3;
    assert RealPow(x, 6) == x * (x * (x * RealPow(x, 3))) == x3 * x3;
    assert RealPow(x, 9) == x * (x * (x * RealPow(x, 6))) == x3 * x3 * x3;
    assert RealPow(x, 12) == x * (x * (x * RealPow(x, 9))) == x3 * x3 * x3 * x3;
  }

  lemma GammaEnds(pow: real -> real)
    requires IsGammaPower(pow)
    ensures SrgbGamma(pow, 0.0) == 0.0 && SrgbGamma(pow, 1.0) == 1.0
  {
    assert RealPow(1.0, 5) == 1.0 by {
      assert RealPow(1.0, 3) == 1.0;
    }
    var v := pow(1.0);
    if v < 1.0 {
      RealPowMonotone(v, 1.0, 12);
      OnePower(12);
    } else if v > 1.0 {
      RealPowMonotone(1.0, v, 12);
      OnePower(12);
    }
  }

  lemma {:induction false} OnePower(n: nat)
    ensures RealPow(1.0, n) == 1.0
  {
    if n > 0 {
      OnePower(n - 1);
    }
  }

  lemma {:induction false} RealPowAdds(x: real, m: nat, n: nat)
    ensures RealPow(x, 0) == 1.0 && RealPow(x, 1) == x
    ensures RealPow(x, m + n) == RealPow(x, m) * RealPow(x, n)
  {
    if m > 0 {
      RealPowAdds(x, m - 1, n);
      assert x * (RealPow(x, m - 1) * RealPow(x, n)) == x * RealPow(x, m - 1) * RealPow(x, n);
    }
  }

  /** The transfer curve: linear up to the knee, and beyond it (c' + 0.055)/1.055 is c to the power 1/2.4. */
  lemma GammaIsTransfer(pow: real -> real, c: real)
    requires IsGammaPower(pow) && 0.0 <= c <= 1.0
    ensures c <= 0.00304 ==> SrgbGamma(pow, c) == 12.92 * c
    ensures c > 0.00304 ==>
              var v := (SrgbGamma(pow, c) + 0.055) / 1.055;
              v >= 0.0 && RealPow(v, 12) == RealPow(c, 5)
  {
    if c > 0.00304 {
      assert (SrgbGamma(pow, c) + 0.055) / 1.055 == pow(c);
    }
  }

  /** Linear sRGB of a chromaticity at full luminance. */
  function LinearRgb(x: real, y: real): (real, real, real)
    requires y > 0.0
  {
    var z := 1.0 - x - y;
    var Y := 1.0;
    var X := (Y / y) * x;
    var Z := (Y / y) * z;
    (X * 3.2410 - Y * 1.5374 - Z * 0.4986,
     -(X * 0.9692) + Y * 1.8760 + Z * 0.0416,
     X * 0.0556 - Y * 0.2040 + Z * 1.0570)
  }

  predicate Close(x: real, y: real) {
    -0.005 < x - y < 0.005
  }

  /** The three sRGB primaries drive one channel each, and the white point drives all three alike. */
  lemma LinearPrimaries()
    ensures var (r, g, b) := LinearRgb(0.64, 0.33); r > 1.0 && Close(g / r, 0.0) && Close(b / r, 0.0)
    ensures var (r, g, b) := LinearRgb(0.30, 0.60); g > 1.0 && Close(r / g, 0.0) && Close(b / g, 0.0)
    ensures var (r, g, b) := LinearRgb(0.15, 0.06); b > 1.0 && Close(r / b, 0.0) && Close(g / b, 0.0)
    ensures var (r, g, b) := LinearRgb(0.3127, 0.3290); Close(r, 1.0) && Close(g, 1.0) && Close(b, 1.0)
  {
  }

  function Normalised(c: real, maxc: real): real {
    if maxc > 1.0 then c / maxc else c
  }

  function ToByte(pow: real -> real, c: real): int {
    (Clamp(SrgbGamma(pow, Clamp(c, 0.0, 1.0)), 0.0, 1.0) * 255.0).Floor
  }

  function XyToRgb(pow: real -> real, currentX: int, currentY: int): Rgb {
    var x, y := currentX as real / 65535.0, currentY as real / 65535.0;
    if y <= 0.0 then Rgb(0, 0, 0)
    else
      var (r, g, b) := LinearRgb(x, y);
      var maxc := Max(Max(r, g), b);
      Rgb(ToByte(pow, Normalised(r, maxc)), ToByte(pow, Normalised(g, maxc)), ToByte(pow, Normalised(b, maxc)))
  }

  /**
   Before normalisation some channel exceeds 1: a positive combination of the three cancels X and Z
   and exceeds the sum of its weights.
   */
  lemma LinearExceedsOne(x: real, y: real)
    requires y > 0.0
    ensures var (r, g, b) := LinearRgb(x, y);
            Max(Max(r, g), b) > 1.0
  {
    var X, Z := (1.0 / y) * x, (1.0 / y) * (1.0 - x - y);
    var (r, g, b) := LinearRgb(x, y);
    assert 1.02675736 * r + 3.45345916 * g + 0.34841752 * b
        == (1.02675736 * 3.2410 - 3.45345916 * 0.9692 + 0.34841752 * 0.0556) * X
         + (-1.02675736 * 0.4986 + 3.45345916 * 0.0416 + 0.34841752 * 1.0570) * Z
         + (-1.02675736 * 1.5374 + 3.45345916 * 1.8760 - 0.34841752 * 0.2040);
  }

  /** What a channel comes out as: dark if negative, else its share of the dominant one, through gamma. */
  ghost predicate ByteOf(pow: real -> real, c: real, maxc: real, v: int)
    requires maxc > 0.0
  {
    if c <= 0.0 then v == 0
    else v as real <= 255.0 * SrgbGamma(pow, c / maxc) < v as real + 1.0
  }

  lemma XyBytes(pow: real -> real, currentX: int, currentY: int)
    requires IsGammaPower(pow) && currentY > 0
    ensures var (r, g, b) := LinearRgb(currentX as real / 65535.0, currentY as real / 65535.0);
            var maxc := Max(Max(r, g), b);
            var c := XyToRgb(pow, currentX, currentY);
            maxc > 0.0 && ByteOf(pow, r, maxc, c.r) && ByteOf(pow, g, maxc, c.g) && ByteOf(pow, b, maxc, c.b)
  {
    var (r, g, b) := LinearRgb(currentX as real / 65535.0, currentY as real / 65535.0);
    var maxc := Max(Max(r, g), b);
    LinearExceedsOne(currentX as real / 65535.0, currentY as real / 65535.0);
    ByteIs(pow, r, maxc);
    ByteIs(pow, g, maxc);
    ByteIs(pow, b, maxc);
  }

  lemma ByteIs(pow: real -> real, c: real, maxc: real)
    requires IsGammaPower(pow) && c <= maxc && maxc > 1.0
    ensures ByteOf(pow, c, maxc, ToByte(pow, Normalised(c, maxc)))
  {
    var q := c / maxc;
    GammaEnds(pow);
    QuotientMonotone(c, maxc, maxc);
    assert maxc / maxc == 1.0;
    if c <= 0.0 {
      QuotientMonotone(c, 0.0, maxc);
      assert Clamp(q, 0.0, 1.0) == 0.0;
    } else {
      QuotientMonotone(0.0, c, maxc);
      GammaMonotone(pow, 0.0, q);
      GammaMonotone(pow, q, 1.0);
      assert Clamp(q, 0.0, 1.0) == q;
    }
  }

  /** A channel whose linear value is under a thousandth of full is not full. */
  lemma DimBytes(pow: real -> real, currentX: int, currentY: int, c: real)
    requires IsGammaPower(pow) && c <= 0.001
    ensures forall maxc: real :: maxc > 1.0 ==> ToByte(pow, Normalised(c, maxc)) < 255
  {
    forall maxc: real | maxc > 1.0 ensures ToByte(pow, Normalised(c, maxc)) < 255 {
      QuotientMonotone(c, 0.001, maxc);
      assert 0.001 / maxc <= 0.001;
    }
  }

  /** The primaries as 16-bit fractions of 65535, one unit below the exact ones at most. */
  lemma EncodedPrimaries()
    ensures var (r, g, b) := LinearRgb(41942.0 / 65535.0, 21626.0 / 65535.0); r > 1.0 && g <= 0.001 && b <= 0.001
    ensures var (r, g, b) := LinearRgb(19660.0 / 65535.0, 39321.0 / 65535.0); r <= 0.001 && g > 1.0 && b <= 0.001
    ensures var (r, g, b) := LinearRgb(9830.0 / 65535.0, 3932.0 / 65535.0); r <= 0.001 && g <= 0.001 && b > 1.0
  {
  }

  lemma ToByteRange(pow: real -> real, c: real)
    ensures 0 <= ToByte(pow, c) <= 255
  {
    var v := Clamp(SrgbGamma(pow, Clamp(c, 0.0, 1.0)), 0.0, 1.0);
    assert 0.0 <= v * 255.0 <= 255.0;
  }

  lemma ToByteMonotone(pow: real -> real, c: real, d: real)
    requires IsGammaPower(pow) && c <= d
    ensures ToByte(pow, c) <= ToByte(pow, d)
  {
    GammaMonotone(pow, Clamp(c, 0.0, 1.0), Clamp(d, 0.0, 1.0));
  }

  lemma QuotientMonotone(c: real, d: real, m: real)
    requires m > 0.0 && c <= d
    ensures c / m <= d / m
  {
    assert d / m - c / m == (d - c) / m >= 0.0;
  }

  lemma DominantIsFull(pow: real -> real, maxc: real)
    requires IsGammaPower(pow) && maxc > 1.0
    ensures ToByte(pow, Normalised(maxc, maxc)) == 255
  {
    GammaEnds(pow);
    assert maxc / maxc == 1.0;
  }

  /** The dominant channel of every chromaticity with y > 0 comes out full; y = 0 is black. */
  lemma XySaturates(pow: real -> real, currentX: int, currentY: int)
    requires IsGammaPower(pow) && currentY >= 0
    ensures InByteRange(XyToRgb(pow, currentX, currentY))
    ensures Saturated(XyToRgb(pow, currentX, currentY)) <==> currentY > 0
    ensures currentY == 0 ==> XyToRgb(pow, currentX, currentY) == Rgb(0, 0, 0)
  {
    var x, y := currentX as real / 65535.0, currentY as real / 65535.0;
    if y > 0.0 {
      var (r, g, b) := LinearRgb(x, y);
      var maxc := Max(Max(r, g), b);
      LinearExceedsOne(x, y);
      ToByteRange(pow, Normalised(r, maxc));
      ToByteRange(pow, Normalised(g, maxc));
      ToByteRange(pow, Normalised(b, maxc));
      DominantIsFull(pow, maxc);
      assert maxc == r || maxc == g || maxc == b;
    }
  }

  /** Normalisation, clamping, gamma and truncation never swap two channels. */
  lemma XyKeepsOrder(pow: real -> real, currentX: int, currentY: int)
    requires IsGammaPower(pow) && currentY > 0
    ensures var (r, g, b) := LinearRgb(currentX as real / 65535.0, currentY as real / 65535.0);
            var c := XyToRgb(pow, currentX, currentY);
            && (r <= g ==> c.r <= c.g) && (g <= r ==> c.g <= c.r)
            && (g <= b ==> c.g <= c.b) && (b <= g ==> c.b <= c.g)
            && (r <= b ==> c.r <= c.b) && (b <= r ==> c.b <= c.r)
  {
    var (r, g, b) := LinearRgb(currentX as real / 65535.0, currentY as real / 65535.0);
    var maxc := Max(Max(r, g), b);
    LinearExceedsOne(currentX as real / 65535.0, currentY as real / 65535.0);
    forall c: real, d: real | c <= d
      ensures ToByte(pow, Normalised(c, maxc)) <= ToByte(pow, Normalised(d, maxc))
    {
      QuotientMonotone(c, d, maxc);
      ToByteMonotone(pow, Normalised(c, maxc), Normalised(d, maxc));
    }
  }
}
