/**
 The lighting cache: what the cluster callbacks and the boot-time priming put in it, the channel
 targets it stands for, and when it agrees with the data model.
 */
module Lighting {
  import opened ByteOrder
  import opened ColorMath
  import opened Fade

  // ----- configuration and cache -----

  /** The two strip types; the blackbody fit of the RGB build is left abstract. */
  datatype Build =
    | Cct(chWarm: nat, chCool: nat, miredsCool: int, miredsWarm: int)
    | RgbBuild(pow: real -> real, ctToRgb: int -> Rgb)

  ghost predicate ValidBuild(b: Build) {
    match b
    case Cct(w, c, mc, mw) => w < NUM_CH && c < NUM_CH && w != c && mc < mw
    case RgbBuild(pow, _) => IsGammaPower(pow)
  }

  const HUE_SATURATION: int := 0
  const XY: int := 1
  const COLOR_TEMP: int := 2

  type uint8 = x: int | 0 <= x < 256
  type uint16 = x: int | 0 <= x < 0x1_0000

  /** The attributes the light's appearance depends on, raw: a null level is 255. */
  datatype Cache = Cache(on: bool, level: uint8, mireds: uint16, mode: uint8, hue: uint8, sat: uint8,
                         x: uint16, y: uint16)

  const INIT_CACHE := Cache(false, 254, 250, COLOR_TEMP, 0, 0, 20500, 21500)

  function Color(b: Build, c: Cache): Rgb
    requires b.RgbBuild?
  {
    if c.mode == HUE_SATURATION then HsvToRgb(c.hue, c.sat)
    else if c.mode == XY then XyToRgb(b.pow, c.x, c.y)
    else b.ctToRgb(c.mireds)
  }

  /** The channel targets a cache stands for. */
  function Targets(b: Build, c: Cache): Levels
    requires b.Cct? ==> b.chWarm < NUM_CH && b.chCool < NUM_CH && b.miredsCool < b.miredsWarm
  {
    if !c.on then [0.0, 0.0, 0.0] else Lit(b, c, CieBrightness(c.level))
  }

  function Lit(b: Build, c: Cache, brightness: real): Levels
    requires b.Cct? ==> b.chWarm < NUM_CH && b.chCool < NUM_CH && b.miredsCool < b.miredsWarm
  {
    if b.Cct? then WhiteMix(b, c.mireds, brightness) else Scaled(Color(b, c), brightness)
  }

  function WhiteMix(b: Build, mireds: int, brightness: real): Levels
    requires b.Cct? && b.chWarm < NUM_CH && b.chCool < NUM_CH && b.miredsCool < b.miredsWarm
  {
    var mix := CtMix(mireds, b.miredsCool, b.miredsWarm);
    [0.0, 0.0, 0.0][b.chWarm := Dim(mix.0, brightness)][b.chCool := Dim(mix.1, brightness)]
  }

  function Scaled(rgb: Rgb, brightness: real): Levels {
    [Share(rgb.r, brightness), Share(rgb.g, brightness), Share(rgb.b, brightness)]
  }

  function Share(v: int, brightness: real): real {
    Dim(v as real / 255.0, brightness)
  }

  function Dim(x: real, brightness: real): real {
    x * brightness
  }

  /** Off is dark; on, the two white strips share the CIE brightness and the third channel stays dark. */
  lemma CctSharesBrightness(b: Build, c: Cache)
    requires ValidBuild(b) && b.Cct?
    ensures !c.on ==> Targets(b, c) == [0.0, 0.0, 0.0]
    ensures c.on ==> Targets(b, c)[b.chWarm] + Targets(b, c)[b.chCool] == CieBrightness(c.level)
    ensures forall ch :: 0 <= ch < NUM_CH && ch != b.chWarm && ch != b.chCool ==> Targets(b, c)[ch] == 0.0
    ensures c.mireds <= b.miredsCool ==> Targets(b, c)[b.chWarm] == 0.0
    ensures c.mireds >= b.miredsWarm ==> Targets(b, c)[b.chCool] == 0.0
  {
    if c.on {
      var (warm, cool) := CtMix(c.mireds, b.miredsCool, b.miredsWarm);
      var brightness := CieBrightness(c.level);
      assert Dim(warm, brightness) + Dim(cool, brightness) == Dim(warm + cool, brightness);
      var span := b.miredsWarm as real - b.miredsCool as real;
      WholeAndNone(span);
    }
  }

  lemma WholeAndNone(span: real)
    requires span > 0.0
    ensures span / span == 1.0 && 0.0 / span == 0.0
  {
  }

  /** Between the end points warm and cool divide the brightness in proportion to the mireds. */
  lemma CctBlends(b: Build, c: Cache)
    requires ValidBuild(b) && b.Cct? && c.on && b.miredsCool <= c.mireds <= b.miredsWarm
    ensures var span, bright := (b.miredsWarm - b.miredsCool) as real, CieBrightness(c.level);
            && Targets(b, c)[b.chWarm] * span == (c.mireds - b.miredsCool) as real * bright
            && Targets(b, c)[b.chCool] * span == (b.miredsWarm - c.mireds) as real * bright
  {
    var (warm, cool) := CtMix(c.mireds, b.miredsCool, b.miredsWarm);
    var span, bright := (b.miredsWarm - b.miredsCool) as real, CieBrightness(c.level);
    CtMixIsLinear(c.mireds, b.miredsCool, b.miredsWarm);
    ProductSwap(warm, bright, span);
    ProductSwap(cool, bright, span);
    assert cool * span == span - warm * span;
  }

  lemma ProductSwap(a: real, b: real, c: real)
    ensures a * b * c == a * c * b
  {
  }

  ghost predicate SomeChannelAt(l: Levels, v: real) {
    exists ch :: 0 <= ch < NUM_CH && l[ch] == v
  }

  ghost predicate NoneAbove(l: Levels, v: real) {
    forall ch :: 0 <= ch < NUM_CH ==> 0.0 <= l[ch] <= v
  }

  lemma ColorSaturates(b: Build, c: Cache)
    requires ValidBuild(b) && b.RgbBuild? && (c.mode == HUE_SATURATION || c.mode == XY)
    ensures InByteRange(Color(b, c))
    ensures Saturated(Color(b, c)) <==> (c.mode == XY ==> c.y > 0)
  {
    if c.mode == XY {
      XySaturates(b.pow, c.x, c.y);
    } else {
      HsvSaturates(c.hue, c.sat);
    }
  }

  /** In the hue and xy modes some channel carries the whole CIE brightness, but for the black y = 0 of a lit lamp. */
  lemma ColorCarriesBrightness(b: Build, c: Cache)
    requires ValidBuild(b) && b.RgbBuild? && c.on
    requires c.mode == HUE_SATURATION || c.mode == XY
    ensures SomeChannelAt(Targets(b, c), CieBrightness(c.level)) <==> c.level == 0 || (c.mode == XY ==> c.y > 0)
    ensures NoneAbove(Targets(b, c), CieBrightness(c.level))
  {
    if c.level == 0 {
      assert Targets(b, c)[0] == Share(Color(b, c).r, 0.0) == 0.0;
      assert Targets(b, c)[1] == Share(Color(b, c).g, 0.0) == 0.0;
      assert Targets(b, c)[2] == Share(Color(b, c).b, 0.0) == 0.0;
    } else {
      CieIncreasing(0, c.level);
      ColorSaturates(b, c);
      ScaledCarries(Color(b, c), CieBrightness(c.level));
    }
  }

  lemma ScaledCarries(rgb: Rgb, brightness: real)
    requires InByteRange(rgb) && brightness > 0.0
    ensures SomeChannelAt(Scaled(rgb, brightness), brightness) <==> Saturated(rgb)
    ensures NoneAbove(Scaled(rgb, brightness), brightness)
  {
    var t := Scaled(rgb, brightness);
    ShareOf(rgb.r, brightness);
    ShareOf(rgb.g, brightness);
    ShareOf(rgb.b, brightness);
    assert t[0] == Share(rgb.r, brightness) && t[1] == Share(rgb.g, brightness) && t[2] == Share(rgb.b, brightness);
  }

  lemma ShareOf(v: int, brightness: real)
    requires 0 <= v <= 255 && brightness > 0.0
    ensures 0.0 <= Share(v, brightness) <= brightness
    ensures Share(v, brightness) == brightness <==> v == 255
  {
    var f := v as real / 255.0;
    assert (1.0 - f) * brightness >= 0.0;
    if v < 255 {
      assert f < 1.0;
      assert (1.0 - f) * brightness > 0.0;
    }
  }

  /** Mode 0 is hue and saturation, mode 1 is chromaticity, and any other mode is the white of the mireds. */
  lemma ColorByMode(b: Build, c: Cache)
    requires b.RgbBuild?
    ensures c.mode == 0 ==> Color(b, c) == HsvToRgb(c.hue, c.sat)
    ensures c.mode == 1 ==> Color(b, c) == XyToRgb(b.pow, c.x, c.y)
    ensures c.mode > 1 ==> Color(b, c) == b.ctToRgb(c.mireds)
  {
  }

  /** Channel 0 is the red one, channel 1 the green one, channel 2 the blue one. */
  lemma RgbTargets(b: Build, c: Cache)
    requires ValidBuild(b) && b.RgbBuild?
    ensures !c.on ==> Targets(b, c) == [0.0, 0.0, 0.0]
    ensures c.on ==>
              var rgb, bright := Color(b, c), CieBrightness(c.level);
              && Targets(b, c)[0] == (rgb.r as real / 255.0) * bright
              && Targets(b, c)[1] == (rgb.g as real / 255.0) * bright
              && Targets(b, c)[2] == (rgb.b as real / 255.0) * bright
  {
    if c.on {
      var rgb, bright := Color(b, c), CieBrightness(c.level);
      assert Targets(b, c) == Scaled(rgb, bright);
      ScaledMeans(Targets(b, c), rgb, bright);
    }
  }

  lemma ScaledMeans(t: Levels, rgb: Rgb, brightness: real)
    requires t == Scaled(rgb, brightness)
    ensures t[0] == (rgb.r as real / 255.0) * brightness
    ensures t[1] == (rgb.g as real / 255.0) * brightness
    ensures t[2] == (rgb.b as real / 255.0) * brightness
  {
  }

  /** Channel `ch` alone carries the brightness; the other two are below it. */
  ghost predicate Owns(l: Levels, ch: nat, brightness: real)
    requires ch < NUM_CH
  {
    l[ch] == brightness && forall i :: 0 <= i < NUM_CH && i != ch ==> 0.0 <= l[i] < brightness
  }

  /** A coloured hue on a lit lamp belongs to one channel: reds to 0, greens to 1, blues to 2. */
  lemma HueOwnsChannel(b: Build, c: Cache)
    requires ValidBuild(b) && b.RgbBuild? && c.on && c.level > 0 && c.mode == 0 && c.sat > 0
    ensures Owns(Targets(b, c), if c.hue < 43 || c.hue >= 215 then 0 else if c.hue < 129 then 1 else 2,
                 CieBrightness(c.level))
  {
    CieIncreasing(0, c.level);
    HsvSectors(c.hue, c.sat);
    SharesOf(Color(b, c), CieBrightness(c.level));
  }

  lemma SharesOf(rgb: Rgb, brightness: real)
    requires InByteRange(rgb) && brightness > 0.0
    ensures var t := Scaled(rgb, brightness);
            && 0.0 <= t[0] <= brightness && (t[0] == brightness <==> rgb.r == 255)
            && 0.0 <= t[1] <= brightness && (t[1] == brightness <==> rgb.g == 255)
            && 0.0 <= t[2] <= brightness && (t[2] == brightness <==> rgb.b == 255)
  {
    ShareOf(rgb.r, brightness);
    ShareOf(rgb.g, brightness);
    ShareOf(rgb.b, brightness);
  }

  /** In xy mode the channels come in the order of the linear ones. */
  lemma XyTargetsKeepOrder(b: Build, c: Cache)
    requires ValidBuild(b) && b.RgbBuild? && c.on && c.mode == 1 && c.y > 0
    ensures var (red, green, blue) := LinearRgb(c.x as real / 65535.0, c.y as real / 65535.0);
            var t := Targets(b, c);
            && (red <= green ==> t[0] <= t[1]) && (green <= red ==> t[1] <= t[0])
            && (green <= blue ==> t[1] <= t[2]) && (blue <= green ==> t[2] <= t[1])
            && (red <= blue ==> t[0] <= t[2]) && (blue <= red ==> t[2] <= t[0])
  {
    var rgb, bright := Color(b, c), CieBrightness(c.level);
    CieRange(c.level);
    XyKeepsOrder(b.pow, c.x, c.y);
    ShareMonotone(rgb.r, rgb.g, bright);
    ShareMonotone(rgb.g, rgb.b, bright);
    ShareMonotone(rgb.r, rgb.b, bright);
    assert Targets(b, c) == [Share(rgb.r, bright), Share(rgb.g, bright), Share(rgb.b, bright)];
  }

  lemma ShareMonotone(u: int, v: int, brightness: real)
    requires brightness >= 0.0
    ensures u <= v ==> Share(u, brightness) <= Share(v, brightness)
    ensures v <= u ==> Share(v, brightness) <= Share(u, brightness)
  {
    var d := v as real / 255.0 - u as real / 255.0;
    assert Share(v, brightness) - Share(u, brightness) == d * brightness;
    assert d >= 0.0 ==> d * brightness >= 0.0;
    assert d <= 0.0 ==> (-d) * brightness >= 0.0;
  }

  /** The sRGB primaries, as the cluster encodes them, light channel 0, channel 1 and channel 2 alone or nearly so. */
  lemma XyPrimaries(b: Build, c: Cache)
    requires ValidBuild(b) && b.RgbBuild? && c.on && c.level > 0 && c.mode == 1
    ensures c.x == 41942 && c.y == 21626 ==> Owns(Targets(b, c), 0, CieBrightness(c.level))
    ensures c.x == 19660 && c.y == 39321 ==> Owns(Targets(b, c), 1, CieBrightness(c.level))
    ensures c.x == 9830 && c.y == 3932 ==> Owns(Targets(b, c), 2, CieBrightness(c.level))
  {
    if c.y > 0 {
      CieIncreasing(0, c.level);
      XySaturates(b.pow, c.x, c.y);
      SharesOf(Color(b, c), CieBrightness(c.level));
      EncodedPrimaries();
      var (r, g, bl) := LinearRgb(c.x as real / 65535.0, c.y as real / 65535.0);
      if c.x == 41942 && c.y == 21626 {
        DimBytes(b.pow, c.x, c.y, g);
        DimBytes(b.pow, c.x, c.y, bl);
      } else if c.x == 19660 && c.y == 39321 {
        DimBytes(b.pow, c.x, c.y, r);
        DimBytes(b.pow, c.x, c.y, bl);
      } else if c.x == 9830 && c.y == 3932 {
        DimBytes(b.pow, c.x, c.y, r);
        DimBytes(b.pow, c.x, c.y, g);
      }
    }
  }

  /** Any level the cluster can hold gives targets the fade keeps in range. */
  lemma TargetsInUnit(b: Build, c: Cache)
    requires ValidBuild(b) && c.level <= 254
    requires b.RgbBuild? ==> InByteRange(b.ctToRgb(c.mireds))
    ensures UnitLevels(Targets(b, c))
  {
    var bright := CieBrightness(c.level);
    CieRange(c.level);
    if c.on && b.Cct? {
      var (warm, cool) := CtMix(c.mireds, b.miredsCool, b.miredsWarm);
      UnitProduct(warm, bright);
      UnitProduct(cool, bright);
    } else if c.on {
      ColorRange(b, c);
      ScaledInUnit(Color(b, c), bright);
    }
  }

  lemma ScaledInUnit(rgb: Rgb, brightness: real)
    requires InByteRange(rgb) && Unit(brightness)
    ensures UnitLevels(Scaled(rgb, brightness))
  {
    UnitProduct(rgb.r as real / 255.0, brightness);
    UnitProduct(rgb.g as real / 255.0, brightness);
    UnitProduct(rgb.b as real / 255.0, brightness);
  }

  lemma ColorRange(b: Build, c: Cache)
    requires ValidBuild(b) && b.RgbBuild? && InByteRange(b.ctToRgb(c.mireds))
    ensures InByteRange(Color(b, c))
  {
    HsvSaturates(c.hue, c.sat);
    XySaturates(b.pow, c.x, c.y);
  }

  lemma UnitProduct(x: real, y: real)
    requires Unit(x) && Unit(y)
    ensures Unit(x * y)
  {
    ProductMonotone(x, y, 1.0, 1.0);
  }

  // ----- attribute callbacks and priming -----

  datatype Attribute =
    | OnOffOnOff
    | LevelCurrentLevel
    | ColorTemperatureMireds
    | ColorCurrentHue
    | ColorCurrentSaturation
    | ColorCurrentX
    | ColorCurrentY
    | ColorColorMode
    | OtherAttribute

  const LIGHT_ENDPOINT: int := 1

  /** A notification: the attribute, its new bytes (if there is a value), and what X and Y now read as. */
  datatype Notice = Notice(endpoint: int, attribute: Attribute, value: seq<byte>, readX: Read, readY: Read)

  datatype Read = ReadFailed | ReadValue(value: uint16)

  /** Two bytes in the order the target stores them. */
  function Le16(value: seq<byte>): uint16
    requires |value| == 2
  {
    var lo: int, hi: int := value[0], value[1];
    lo + 256 * hi
  }

  /** The cache after a notification; `value == []` stands for a null pointer. */
  function AfterNotice(b: Build, c: Cache, n: Notice): Cache {
    if n.endpoint != LIGHT_ENDPOINT || n.value == [] then c
    else if n.attribute.OnOffOnOff? then c.(on := n.value[0] != 0)
    else if n.attribute.LevelCurrentLevel? then c.(level := n.value[0])
    else if n.attribute.ColorTemperatureMireds? then
      if |n.value| == 2 then SetMireds(b, c, Le16(n.value)) else c
    else if b.Cct? then c
    else if n.attribute.ColorCurrentHue? then c.(hue := n.value[0], mode := HUE_SATURATION)
    else if n.attribute.ColorCurrentSaturation? then c.(sat := n.value[0], mode := HUE_SATURATION)
    else if n.attribute.ColorColorMode? then c.(mode := n.value[0])
    else if (n.attribute.ColorCurrentX? || n.attribute.ColorCurrentY?) && |n.value| == 2
            && n.readX.ReadValue? && n.readY.ReadValue? then
      c.(x := n.readX.value, y := n.readY.value, mode := XY)
    else c
  }

  function SetMireds(b: Build, c: Cache, mireds: uint16): Cache {
    if b.Cct? then c.(mireds := mireds) else c.(mireds := mireds, mode := COLOR_TEMP)
  }

  /** What a notification leaves alone: other endpoints, null values, values of the wrong size, unreadable pairs. */
  lemma NoticesIgnored(b: Build, c: Cache, n: Notice)
    requires || n.endpoint != 1 || n.value == [] || n.attribute == OtherAttribute
             || (n.attribute == ColorTemperatureMireds && |n.value| != 2)
             || ((n.attribute == ColorCurrentX || n.attribute == ColorCurrentY)
                 && (|n.value| != 2 || n.readX == ReadFailed || n.readY == ReadFailed))
             || (b.Cct? && n.attribute != OnOffOnOff && n.attribute != LevelCurrentLevel
                 && n.attribute != ColorTemperatureMireds)
    ensures AfterNotice(b, c, n) == c
  {
  }

  /** What the others set, and the colour mode that comes with it. */
  lemma NoticesApplied(b: Build, c: Cache, a: Attribute, value: seq<byte>, x: uint16, y: uint16)
    requires b.RgbBuild? && value != []
    ensures var t := AfterNotice(b, c, Notice(1, a, value, ReadValue(x), ReadValue(y)));
            match a
            case OnOffOnOff => t == c.(on := value[0] != 0)
            case LevelCurrentLevel => t == c.(level := value[0])
            case ColorTemperatureMireds =>
              |value| == 2 ==> t == c.(mireds := value[0] as int + 256 * (value[1] as int), mode := 2)
            case ColorCurrentHue => t == c.(hue := value[0], mode := 0)
            case ColorCurrentSaturation => t == c.(sat := value[0], mode := 0)
            case ColorCurrentX => |value| == 2 ==> t == c.(x := x, y := y, mode := 1)
            case ColorCurrentY => |value| == 2 ==> t == c.(x := x, y := y, mode := 1)
            case ColorColorMode => t == c.(mode := value[0])
            case OtherAttribute => t == c
  {
  }

  /** Which of the three priming reads succeed. */
  datatype Reads = Reads(level: bool, mireds: bool, on: bool)

  const NULL_LEVEL: int := 255

  /** The cache after priming from the data model `dm`. */
  function AfterPriming(b: Build, c: Cache, dm: Cache, got: Reads): Cache {
    var c1 := if got.level && dm.level != NULL_LEVEL then c.(level := dm.level) else c;
    var c2 := if got.mireds then SetMireds(b, c1, dm.mireds) else c1;
    if got.on then c2.(on := dm.on) else c2
  }

  /** The cached attributes that matter in a build equal the data model's. */
  predicate Agrees(b: Build, c: Cache, dm: Cache) {
    if b.Cct? then c.on == dm.on && c.level == dm.level && c.mireds == dm.mireds else c == dm
  }

  /** A notification about anything but the attributes the cache is made of. */
  type ForeignNotice = n: Notice | n.endpoint != LIGHT_ENDPOINT || n.attribute == OtherAttribute
    witness Notice(0, OtherAttribute, [], ReadFailed, ReadFailed)

  /** A change of the data model; for x and y also whether the callback can read both back. */
  datatype Write =
    | WriteOnOff(on: bool)
    | WriteLevel(level: uint8)
    | WriteMireds(mireds: uint16)
    | WriteMode(mode: uint8)
    | WriteHue(hue: uint8)
    | WriteSat(sat: uint8)
    | WriteX(x: uint16, readable: bool)
    | WriteY(y: uint16, readable: bool)
    | WriteElsewhere(notice: ForeignNotice)

  function Store(dm: Cache, w: Write): Cache {
    match w
    case WriteOnOff(on) => dm.(on := on)
    case WriteLevel(level) => dm.(level := level)
    case WriteMireds(mireds) => dm.(mireds := mireds)
    case WriteMode(mode) => dm.(mode := mode)
    case WriteHue(hue) => dm.(hue := hue)
    case WriteSat(sat) => dm.(sat := sat)
    case WriteX(x, _) => dm.(x := x)
    case WriteY(y, _) => dm.(y := y)
    case WriteElsewhere(_) => dm
  }

  function Bytes16(v: uint16): seq<byte> {
    [v % 256, v / 256]
  }

  function ReadBack(readable: bool, v: uint16): Read {
    if readable then ReadValue(v) else ReadFailed
  }

  /** The notification of a write that has led to `dm`: one byte, or two little-endian bytes. */
  function NoticeOf(dm: Cache, w: Write): Notice {
    match w
    case WriteOnOff(on) => Notice(LIGHT_ENDPOINT, OnOffOnOff, [if on then 1 else 0], ReadFailed, ReadFailed)
    case WriteLevel(level) => Notice(LIGHT_ENDPOINT, LevelCurrentLevel, [level], ReadFailed, ReadFailed)
    case WriteMireds(mireds) =>
      Notice(LIGHT_ENDPOINT, ColorTemperatureMireds, Bytes16(mireds), ReadFailed, ReadFailed)
    case WriteMode(mode) => Notice(LIGHT_ENDPOINT, ColorColorMode, [mode], ReadFailed, ReadFailed)
    case WriteHue(hue) => Notice(LIGHT_ENDPOINT, ColorCurrentHue, [hue], ReadFailed, ReadFailed)
    case WriteSat(sat) => Notice(LIGHT_ENDPOINT, ColorCurrentSaturation, [sat], ReadFailed, ReadFailed)
    case WriteX(x, readable) =>
      Notice(LIGHT_ENDPOINT, ColorCurrentX, Bytes16(x), ReadBack(readable, dm.x), ReadBack(readable, dm.y))
    case WriteY(y, readable) =>
      Notice(LIGHT_ENDPOINT, ColorCurrentY, Bytes16(y), ReadBack(readable, dm.x), ReadBack(readable, dm.y))
    case WriteElsewhere(notice) => notice
  }

  function StoreAll(dm: Cache, ws: seq<Write>): Cache
    decreases |ws|
  {
    if ws == [] then dm else StoreAll(Store(dm, ws[0]), ws[1..])
  }

  /** The cache after the notifications of writes that start from the data model `dm`. */
  function NotifyAll(b: Build, c: Cache, dm: Cache, ws: seq<Write>): Cache
    decreases |ws|
  {
    if ws == [] then c
    else
      var next := Store(dm, ws[0]);
      NotifyAll(b, AfterNotice(b, c, NoticeOf(next, ws[0])), next, ws[1..])
  }

  /** Priming makes the white build agree exactly when every read succeeds, or happens to match the default. */
  lemma CctPrimingAgrees(b: Build, dm: Cache, got: Reads)
    requires b.Cct?
    ensures Agrees(b, AfterPriming(b, INIT_CACHE, dm, got), dm)
       <==> && ((got.level && dm.level != 255) || dm.level == 254)
            && (got.mireds || dm.mireds == 250)
            && (got.on || !dm.on)
  {
  }

  /**
   Priming leaves the RGB build in colour-temperature mode whatever the data model holds, so it agrees
   only if that is the mode, the other colour attributes are still the defaults, and every read
   succeeds or happens to match its default.
   */
  lemma RgbPrimingAgrees(b: Build, dm: Cache, got: Reads)
    requires b.RgbBuild?
    ensures var primed := AfterPriming(b, INIT_CACHE, dm, got);
            && primed.mode == 2
            && (Agrees(b, primed, dm) <==>
                  && ((got.level && dm.level != 255) || dm.level == 254)
                  && (got.mireds || dm.mireds == 250)
                  && (got.on || !dm.on)
                  && dm.mode == 2 && dm.hue == 0 && dm.sat == 0 && dm.x == 20500 && dm.y == 21500)
  {
  }

  /** Nothing is lit. */
  predicate Dark(b: Build, c: Cache)
    requires b.RgbBuild?
  {
    !c.on || c.level == 0 || Color(b, c) == Rgb(0, 0, 0)
  }

  predicate Proportional(u: Rgb, p: real, v: Rgb, q: real) {
    u.r as real * p == v.r as real * q && u.g as real * p == v.g as real * q && u.b as real * p == v.b as real * q
  }

  /** Both dark, or equally bright and of one colour, or of different brightness that the colours make up for. */
  predicate SameLook(b: Build, c: Cache, t: Cache)
    requires b.RgbBuild?
  {
    if !c.on || !t.on then Dark(b, c) && Dark(b, t)
    else if c.level == t.level then c.level == 0 || Color(b, c) == Color(b, t)
    else Proportional(Color(b, c), CieBrightness(c.level), Color(b, t), CieBrightness(t.level))
  }

  lemma LookIff(b: Build, c: Cache, t: Cache)
    requires ValidBuild(b) && b.RgbBuild?
    ensures Targets(b, c) == Targets(b, t) <==> SameLook(b, c, t)
  {
    if c.on && t.on {
      LitLookIff(Color(b, c), c.level, Color(b, t), t.level);
    } else {
      DarkIff(b, c);
      DarkIff(b, t);
    }
  }

  lemma LitLookIff(u: Rgb, m: uint8, v: Rgb, n: uint8)
    ensures Scaled(u, CieBrightness(m)) == Scaled(v, CieBrightness(n)) <==>
              if m == n then m == 0 || u == v else Proportional(u, CieBrightness(m), v, CieBrightness(n))
  {
    var p, q := CieBrightness(m), CieBrightness(n);
    ThreeEqualIff(Scaled(u, p), Scaled(v, q));
    SharesEqualIff(u.r, p, v.r, q);
    SharesEqualIff(u.g, p, v.g, q);
    SharesEqualIff(u.b, p, v.b, q);
    if m == n && m > 0 {
      CieIncreasing(0, m);
      ShareInjective(u.r, v.r, p);
      ShareInjective(u.g, v.g, p);
      ShareInjective(u.b, v.b, p);
    }
  }

  lemma ThreeEqualIff(l: Levels, m: Levels)
    ensures l == m <==> l[0] == m[0] && l[1] == m[1] && l[2] == m[2]
  {
  }

  lemma DarkIff(b: Build, c: Cache)
    requires ValidBuild(b) && b.RgbBuild?
    ensures Targets(b, c) == [0.0, 0.0, 0.0] <==> Dark(b, c)
  {
    if c.on {
      var u, p := Color(b, c), CieBrightness(c.level);
      ThreeEqualIff(Scaled(u, p), [0.0, 0.0, 0.0]);
      if c.level > 0 {
        CieIncreasing(0, c.level);
        ShareInjective(u.r, 0, p);
        ShareInjective(u.g, 0, p);
        ShareInjective(u.b, 0, p);
        assert Share(0, p) == 0.0;
      } else {
        assert Share(u.r, 0.0) == 0.0 && Share(u.g, 0.0) == 0.0 && Share(u.b, 0.0) == 0.0;
      }
    }
  }

  lemma SharesEqualIff(u: int, p: real, v: int, q: real)
    ensures Share(u, p) == Share(v, q) <==> u as real * p == v as real * q
  {
    assert Share(u, p) * 255.0 == u as real * p;
    assert Share(v, q) * 255.0 == v as real * q;
  }

  lemma ShareInjective(u: int, v: int, brightness: real)
    requires brightness > 0.0
    ensures Share(u, brightness) == Share(v, brightness) <==> u == v
  {
    var d := u as real / 255.0 - v as real / 255.0;
    assert Share(u, brightness) - Share(v, brightness) == d * brightness;
    if d > 0.0 {
      assert d * brightness > 0.0;
    } else if d < 0.0 {
      assert (-d) * brightness > 0.0;
    }
  }

  /** Just primed, the RGB lamp shows the data model exactly if dark, or its colour is the white of its mireds. */
  lemma RgbPrimingShows(b: Build, dm: Cache)
    requires ValidBuild(b) && b.RgbBuild? && dm.level != NULL_LEVEL
    ensures Targets(b, AfterPriming(b, INIT_CACHE, dm, Reads(true, true, true))) == Targets(b, dm)
       <==> !dm.on || dm.level == 0 || Color(b, dm) == b.ctToRgb(dm.mireds)
  {
    LookIff(b, AfterPriming(b, INIT_CACHE, dm, Reads(true, true, true)), dm);
  }

  /** A saturation write after that switches the mode back but finds the default hue, not the real one. */
  lemma StaleHueShows(b: Build, dm: Cache, sat: uint8)
    requires ValidBuild(b) && b.RgbBuild? && dm.level != NULL_LEVEL && dm.mode == HUE_SATURATION
    ensures var primed := AfterPriming(b, INIT_CACHE, dm, Reads(true, true, true));
            var same := Targets(b, NotifyAll(b, primed, dm, [WriteSat(sat)]))
                        == Targets(b, StoreAll(dm, [WriteSat(sat)]));
            && (same <==> !dm.on || dm.level == 0 || HsvToRgb(INIT_CACHE.hue, sat) == HsvToRgb(dm.hue, sat))
            && (dm.on && dm.level > 0 && sat > 0 && 86 <= dm.hue < 172 ==> !same)
  {
    var c := NotifiedOnce(b, AfterPriming(b, INIT_CACHE, dm, Reads(true, true, true)), dm, WriteSat(sat));
    LookIff(b, c, Store(dm, WriteSat(sat)));
    assert 86 <= dm.hue < 172 ==> dm.hue / 43 == 2 || dm.hue / 43 == 3;
  }

  /** A hue write finds the default saturation, which is none: the lamp turns white unless the real one is zero too. */
  lemma StaleSaturationShows(b: Build, dm: Cache, hue: uint8)
    requires ValidBuild(b) && b.RgbBuild? && dm.level != NULL_LEVEL && dm.mode == HUE_SATURATION
    ensures var primed := AfterPriming(b, INIT_CACHE, dm, Reads(true, true, true));
            var c := NotifyAll(b, primed, dm, [WriteHue(hue)]);
            && Color(b, c) == Rgb(255, 255, 255)
            && (Targets(b, c) == Targets(b, StoreAll(dm, [WriteHue(hue)])) <==>
                  !dm.on || dm.level == 0 || dm.sat == 0)
  {
    var c := NotifiedOnce(b, AfterPriming(b, INIT_CACHE, dm, Reads(true, true, true)), dm, WriteHue(hue));
    LookIff(b, c, Store(dm, WriteHue(hue)));
  }

  lemma NotifiedOnce(b: Build, c: Cache, dm: Cache, w: Write) returns (t: Cache)
    ensures t == AfterNotice(b, c, NoticeOf(Store(dm, w), w))
    ensures NotifyAll(b, c, dm, [w]) == t && StoreAll(dm, [w]) == Store(dm, w)
  {
    t := AfterNotice(b, c, NoticeOf(Store(dm, w), w));
    assert [w][1..] == [];
    assert StoreAll(Store(dm, w), []) == Store(dm, w);
    assert NotifyAll(b, t, Store(dm, w), []) == t;
  }

  // ----- the RGB build after any writes: each cached attribute is the last write that set it -----

  datatype Kind = On | Level | Mireds | Mode | Hue | Sat | Pair

  /** The write's notification sets this part of the cache; x and y are set together, and many writes set the mode. */
  predicate Sets(w: Write, kind: Kind) {
    match kind
    case On => w.WriteOnOff?
    case Level => w.WriteLevel?
    case Mireds => w.WriteMireds?
    case Hue => w.WriteHue?
    case Sat => w.WriteSat?
    case Pair => SetsPair(w)
    case Mode => w.WriteMode? || w.WriteMireds? || w.WriteHue? || w.WriteSat? || SetsPair(w)
  }

  predicate SetsPair(w: Write) {
    (w.WriteX? || w.WriteY?) && w.readable
  }

  /** The index of the last such write, or -1. */
  function Last(ws: seq<Write>, kind: Kind): (i: int)
    ensures -1 <= i < |ws|
    ensures i >= 0 ==> Sets(ws[i], kind)
  {
    if ws == [] then -1
    else if Sets(ws[|ws| - 1], kind) then |ws| - 1
    else Last(ws[..|ws| - 1], kind)
  }

  function ModeOf(w: Write): uint8
    requires Sets(w, Mode)
  {
    if w.WriteMode? then w.mode
    else if w.WriteMireds? then COLOR_TEMP
    else if w.WriteHue? || w.WriteSat? then HUE_SATURATION
    else XY
  }

  function OnAfter(on: bool, ws: seq<Write>): bool {
    if Last(ws, On) >= 0 then ws[Last(ws, On)].on else on
  }

  function LevelAfter(level: uint8, ws: seq<Write>): uint8 {
    if Last(ws, Level) >= 0 then ws[Last(ws, Level)].level else level
  }

  function MiredsAfter(mireds: uint16, ws: seq<Write>): uint16 {
    if Last(ws, Mireds) >= 0 then ws[Last(ws, Mireds)].mireds else mireds
  }

  function ModeAfter(mode: uint8, ws: seq<Write>): uint8 {
    if Last(ws, Mode) >= 0 then ModeOf(ws[Last(ws, Mode)]) else mode
  }

  function HueAfter(hue: uint8, ws: seq<Write>): uint8 {
    if Last(ws, Hue) >= 0 then ws[Last(ws, Hue)].hue else hue
  }

  function SatAfter(sat: uint8, ws: seq<Write>): uint8 {
    if Last(ws, Sat) >= 0 then ws[Last(ws, Sat)].sat else sat
  }

  /** The data model the last pair was read back from, or the given one. */
  function PairSource(c: Cache, dm: Cache, ws: seq<Write>): Cache {
    if Last(ws, Pair) >= 0 then StoreAll(dm, ws[..Last(ws, Pair) + 1]) else c
  }

  /** A cache read off the writes: for every part the last write that set it, or else what it was. */
  function Seen(c: Cache, dm: Cache, ws: seq<Write>): Cache {
    Cache(OnAfter(c.on, ws), LevelAfter(c.level, ws), MiredsAfter(c.mireds, ws), ModeAfter(c.mode, ws),
          HueAfter(c.hue, ws), SatAfter(c.sat, ws), PairSource(c, dm, ws).x, PairSource(c, dm, ws).y)
  }

  lemma {:induction false} StoreMore(dm: Cache, ws: seq<Write>, w: Write)
    ensures StoreAll(dm, ws + [w]) == Store(StoreAll(dm, ws), w)
    decreases |ws|
  {
    if ws == [] {
      assert ws + [w] == [w];
      assert [w][1..] == [];
      assert StoreAll(Store(dm, w), []) == Store(dm, w);
    } else {
      StoreMore(Store(dm, ws[0]), ws[1..], w);
      assert (ws + [w])[1..] == ws[1..] + [w];
    }
  }

  lemma {:induction false} NotifyMore(b: Build, c: Cache, dm: Cache, ws: seq<Write>, w: Write)
    ensures NotifyAll(b, c, dm, ws + [w])
         == AfterNotice(b, NotifyAll(b, c, dm, ws), NoticeOf(Store(StoreAll(dm, ws), w), w))
    decreases |ws|
  {
    if ws == [] {
      assert ws + [w] == [w];
      var t := NotifiedOnce(b, c, dm, w);
    } else {
      var next := Store(dm, ws[0]);
      NotifyMore(b, AfterNotice(b, c, NoticeOf(next, ws[0])), next, ws[1..], w);
      assert (ws + [w])[1..] == ws[1..] + [w];
    }
  }

  /** The part of a longer history that a write does not set is what it was. */
  lemma LastOfMore(ws: seq<Write>, w: Write, kind: Kind)
    ensures Last(ws + [w], kind) == if Sets(w, kind) then |ws| else Last(ws, kind)
  {
    assert (ws + [w])[..|ws|] == ws;
  }

  lemma OnOfMore(on: bool, ws: seq<Write>, w: Write)
    ensures OnAfter(on, ws + [w]) == if w.WriteOnOff? then w.on else OnAfter(on, ws)
  {
    LastOfMore(ws, w, On);
  }

  lemma LevelOfMore(level: uint8, ws: seq<Write>, w: Write)
    ensures LevelAfter(level, ws + [w]) == if w.WriteLevel? then w.level else LevelAfter(level, ws)
  {
    LastOfMore(ws, w, Level);
  }

  lemma MiredsOfMore(mireds: uint16, ws: seq<Write>, w: Write)
    ensures MiredsAfter(mireds, ws + [w]) == if w.WriteMireds? then w.mireds else MiredsAfter(mireds, ws)
  {
    LastOfMore(ws, w, Mireds);
  }

  lemma ModeOfMore(mode: uint8, ws: seq<Write>, w: Write)
    ensures ModeAfter(mode, ws + [w]) == if Sets(w, Mode) then ModeOf(w) else ModeAfter(mode, ws)
  {
    LastOfMore(ws, w, Mode);
  }

  lemma HueOfMore(hue: uint8, ws: seq<Write>, w: Write)
    ensures HueAfter(hue, ws + [w]) == if w.WriteHue? then w.hue else HueAfter(hue, ws)
  {
    LastOfMore(ws, w, Hue);
  }

  lemma SatOfMore(sat: uint8, ws: seq<Write>, w: Write)
    ensures SatAfter(sat, ws + [w]) == if w.WriteSat? then w.sat else SatAfter(sat, ws)
  {
    LastOfMore(ws, w, Sat);
  }

  lemma PairOfMore(c: Cache, dm: Cache, ws: seq<Write>, w: Write)
    ensures PairSource(c, dm, ws + [w]) == if SetsPair(w) then StoreAll(dm, ws + [w]) else PairSource(c, dm, ws)
  {
    LastOfMore(ws, w, Pair);
    assert (ws + [w])[..|ws| + 1] == ws + [w];
    assert Last(ws, Pair) >= 0 ==> (ws + [w])[..Last(ws, Pair) + 1] == ws[..Last(ws, Pair) + 1];
  }

  lemma SeenOfMore(b: Build, c: Cache, dm: Cache, ws: seq<Write>, w: Write)
    requires b.RgbBuild?
    ensures var next := Store(StoreAll(dm, ws), w);
            Seen(c, dm, ws + [w]) == AfterNotice(b, Seen(c, dm, ws), NoticeOf(next, w))
  {
    OnOfMore(c.on, ws, w);
    LevelOfMore(c.level, ws, w);
    MiredsOfMore(c.mireds, ws, w);
    ModeOfMore(c.mode, ws, w);
    HueOfMore(c.hue, ws, w);
    SatOfMore(c.sat, ws, w);
    PairOfMore(c, dm, ws, w);
    StoreMore(dm, ws, w);
    MoreNotice(b, Seen(c, dm, ws), Store(StoreAll(dm, ws), w), w);
  }

  /** What one notification does to an RGB cache, part by part. */
  lemma MoreNotice(b: Build, c: Cache, next: Cache, w: Write)
    requires b.RgbBuild?
    ensures AfterNotice(b, c, NoticeOf(next, w)) ==
              Cache(if w.WriteOnOff? then w.on else c.on, if w.WriteLevel? then w.level else c.level,
                    if w.WriteMireds? then w.mireds else c.mireds, if Sets(w, Mode) then ModeOf(w) else c.mode,
                    if w.WriteHue? then w.hue else c.hue, if w.WriteSat? then w.sat else c.sat,
                    if SetsPair(w) then next.x else c.x, if SetsPair(w) then next.y else c.y)
  {
  }

  /** Running the callbacks one by one leaves exactly that cache. */
  lemma {:induction false} RgbCacheIsLastWrites(b: Build, c: Cache, dm: Cache, ws: seq<Write>)
    requires b.RgbBuild?
    ensures NotifyAll(b, c, dm, ws) == Seen(c, dm, ws)
    decreases |ws|
  {
    if ws == [] {
    } else {
      var init, w := ws[..|ws| - 1], ws[|ws| - 1];
      assert ws == init + [w];
      RgbCacheIsLastWrites(b, c, dm, init);
      NotifyMore(b, c, dm, init, w);
      SeenOfMore(b, c, dm, init, w);
    }
  }

  /** After any priming and any writes the RGB lamp shows the data model exactly if the last writes look like it. */
  lemma RgbShowsIff(b: Build, dm: Cache, got: Reads, ws: seq<Write>)
    requires ValidBuild(b) && b.RgbBuild?
    ensures var primed := AfterPriming(b, INIT_CACHE, dm, got);
            Targets(b, NotifyAll(b, primed, dm, ws)) == Targets(b, StoreAll(dm, ws)) <==>
              SameLook(b, Seen(primed, dm, ws), StoreAll(dm, ws))
  {
    var primed := AfterPriming(b, INIT_CACHE, dm, got);
    RgbCacheIsLastWrites(b, primed, dm, ws);
    LookIff(b, NotifyAll(b, primed, dm, ws), StoreAll(dm, ws));
  }

  /** What the data model itself holds after the writes, but for x and y. */
  ghost predicate HoldsLast(dm: Cache, ws: seq<Write>, t: Cache) {
    && t.on == OnAfter(dm.on, ws) && t.level == LevelAfter(dm.level, ws) && t.mireds == MiredsAfter(dm.mireds, ws)
    && t.hue == HueAfter(dm.hue, ws) && t.sat == SatAfter(dm.sat, ws)
    && (Last(ws, Mode) >= 0 && ws[Last(ws, Mode)].WriteMode? ==> t.mode == ws[Last(ws, Mode)].mode)
  }

  lemma {:induction false} StoreIsLastWrites(dm: Cache, ws: seq<Write>)
    ensures HoldsLast(dm, ws, StoreAll(dm, ws))
    decreases |ws|
  {
    if ws == [] {
    } else {
      var init, w := ws[..|ws| - 1], ws[|ws| - 1];
      assert ws == init + [w];
      StoreIsLastWrites(dm, init);
      StoreMore(dm, init, w);
      OnOfMore(dm.on, init, w);
      LevelOfMore(dm.level, init, w);
      MiredsOfMore(dm.mireds, init, w);
      HueOfMore(dm.hue, init, w);
      SatOfMore(dm.sat, init, w);
      LastOfMore(init, w, Mode);
    }
  }

  /** An x or y written after the last pair the callback could read back. */
  predicate PairStale(ws: seq<Write>) {
    exists i :: Last(ws, Pair) < i < |ws| && (ws[i].WriteX? || ws[i].WriteY?)
  }

  /**
   Whatever priming found, the RGB cache is in agreement once every attribute has been written since:
   the pair read back after its last write, and the mode itself the last write that touches the mode.
   */
  lemma RgbCatchesUp(b: Build, dm: Cache, got: Reads, ws: seq<Write>)
    requires b.RgbBuild?
    requires Last(ws, On) >= 0 && Last(ws, Level) >= 0 && Last(ws, Mireds) >= 0
    requires Last(ws, Hue) >= 0 && Last(ws, Sat) >= 0 && Last(ws, Pair) >= 0 && !PairStale(ws)
    requires Last(ws, Mode) >= 0 && ws[Last(ws, Mode)].WriteMode?
    ensures Agrees(b, NotifyAll(b, AfterPriming(b, INIT_CACHE, dm, got), dm, ws), StoreAll(dm, ws))
  {
    RgbCacheIsLastWrites(b, AfterPriming(b, INIT_CACHE, dm, got), dm, ws);
    StoreIsLastWrites(dm, ws);
    PairStays(dm, ws, Last(ws, Pair) + 1);
  }

  lemma {:induction false} PairStays(dm: Cache, ws: seq<Write>, n: nat)
    requires n <= |ws| && forall i :: n <= i < |ws| ==> !ws[i].WriteX? && !ws[i].WriteY?
    ensures StoreAll(dm, ws).x == StoreAll(dm, ws[..n]).x && StoreAll(dm, ws).y == StoreAll(dm, ws[..n]).y
    decreases |ws|
  {
    if n == |ws| {
      assert ws[..n] == ws;
    } else {
      var init, w := ws[..|ws| - 1], ws[|ws| - 1];
      assert ws == init + [w] && init[..n] == ws[..n];
      PairStays(dm, init, n);
      StoreMore(dm, init, w);
    }
  }

  /** Agreement, once reached, survives every sequence of writes. */
  lemma {:induction false} CctStaysAgreed(b: Build, c: Cache, dm: Cache, ws: seq<Write>)
    requires b.Cct? && Agrees(b, c, dm)
    ensures Agrees(b, NotifyAll(b, c, dm, ws), StoreAll(dm, ws))
    decreases |ws|
  {
    if ws == [] {
    } else {
      var next := Store(dm, ws[0]);
      CctStaysAgreed(b, AfterNotice(b, c, NoticeOf(next, ws[0])), next, ws[1..]);
    }
  }

  lemma CctTargetsDetermined(b: Build, c: Cache, dm: Cache)
    requires ValidBuild(b) && b.Cct? && Agrees(b, c, dm)
    ensures Targets(b, c) == Targets(b, dm)
  {
  }

  /** After priming from readable state and any writes, the lamp shows what the data model says. */
  lemma CctShowsDataModel(b: Build, dm: Cache, ws: seq<Write>)
    requires ValidBuild(b) && b.Cct? && dm.level != NULL_LEVEL
    ensures var c := NotifyAll(b, AfterPriming(b, INIT_CACHE, dm, Reads(true, true, true)), dm, ws);
            Targets(b, c) == Targets(b, StoreAll(dm, ws))
  {
    var primed := AfterPriming(b, INIT_CACHE, dm, Reads(true, true, true));
    CctPrimingAgrees(b, dm, Reads(true, true, true));
    CctStaysAgreed(b, primed, dm, ws);
    CctTargetsDetermined(b, NotifyAll(b, primed, dm, ws), StoreAll(dm, ws));
  }

  // ----- the manager -----

  class LightingManager {
    const build: Build
    var on: bool
    var level: uint8
    var mireds: uint16
    var colorMode: uint8
    var hue: uint8
    var sat: uint8
    var x: uint16
    var y: uint16
    const current: array<real>
    const target: array<real>
    /** The fade work item is delayed or queued. */
    var pending: bool

    ghost predicate Valid()
      reads this
    {
      ValidBuild(build) && current.Length == NUM_CH && target.Length == NUM_CH && current != target
    }

    function Cached(): Cache
      reads this
    {
      Cache(on, level, mireds, colorMode, hue, sat, x, y)
    }

    constructor (build: Build)
      requires ValidBuild(build)
      ensures Valid() && this.build == build && fresh(current) && fresh(target)
      ensures Cached() == INIT_CACHE && !pending
      ensures current[..] == [0.0, 0.0, 0.0] && target[..] == Targets(build, Cached())
    {
      this.build := build;
      on, level, mireds := false, 254, 250;
      colorMode, hue, sat, x, y := COLOR_TEMP, 0, 0, 20500, 21500;
      current := new real[NUM_CH](_ => 0.0);
      target := new real[NUM_CH](_ => 0.0);
      pending := false;
    }

    method FadeWorkHandler()
      requires Valid()
      modifies this`pending, current
      ensures current[..] == Tick(old(current[..]), target[..])
      ensures pending == (old(pending) || AnyMoves(old(current[..]), target[..]))
    {
      ghost var was: Levels, goal: Levels := current[..], target[..];
      var active := false;
      for ch := 0 to NUM_CH
        invariant forall i :: 0 <= i < ch ==> current[i] == FadeOne(was[i], goal[i])
        invariant forall i :: ch <= i < NUM_CH ==> current[i] == was[i]
        invariant pending == old(pending)
        invariant active <==> exists i :: 0 <= i < ch && Moves(was[i], goal[i])
      {
        var delta := target[ch] - current[ch];
        if Abs(delta) < SETTLED {
          current[ch] := target[ch];
        } else {
          current[ch] := current[ch] + delta * ALPHA;
          active := true;
        }
      }
      assert active <==> AnyMoves(was, goal);
      assert was == old(current[..]) && goal == target[..];
      if active {
        pending := true;
      }
    }

    method SetChannelTargets(targets: Levels)
      requires Valid()
      modifies this`pending, target
      ensures target[..] == targets && pending
    {
      for ch := 0 to NUM_CH
        invariant target[..ch] == targets[..ch]
      {
        target[ch] := targets[ch];
      }
      pending := true;
    }

    method CurrentColor() returns (rgb: Rgb)
      requires build.RgbBuild?
      ensures rgb == Color(build, Cached())
    {
      if colorMode == HUE_SATURATION {
        rgb := HsvToRgb(hue, sat);
      } else if colorMode == XY {
        rgb := XyToRgb(build.pow, x, y);
      } else {
        rgb := build.ctToRgb(mireds);
      }
    }

    method LitTargets(brightness: real) returns (targets: Levels)
      requires Valid()
      ensures targets == Lit(build, Cached(), brightness)
    {
      if build.Cct? {
        var mix := CtMix(mireds, build.miredsCool, build.miredsWarm);
        targets := [0.0, 0.0, 0.0];
        targets := targets[build.chWarm := Dim(mix.0, brightness)];
        targets := targets[build.chCool := Dim(mix.1, brightness)];
        assert targets == WhiteMix(build, mireds, brightness);
      } else {
        var rgb := CurrentColor();
        targets := [Share(rgb.r, brightness), Share(rgb.g, brightness), Share(rgb.b, brightness)];
        assert targets == Scaled(rgb, brightness);
      }
    }

    method Apply()
      requires Valid()
      modifies this`pending, target
      ensures target[..] == Targets(build, Cached()) && pending
    {
      var targets: Levels := [0.0, 0.0, 0.0];
      if on {
        targets := LitTargets(CieBrightness(level));
      }
      SetChannelTargets(targets);
    }

    method SetOnOff(on: bool)
      requires Valid()
      modifies this`on, this`pending, target
      ensures Cached() == old(Cached()).(on := on)
      ensures target[..] == Targets(build, Cached()) && pending
    {
      this.on := on;
      Apply();
    }

    method SetLevel(level: uint8)
      requires Valid()
      modifies this`level, this`pending, target
      ensures Cached() == old(Cached()).(level := level)
      ensures target[..] == Targets(build, Cached()) && pending
    {
      this.level := level;
      Apply();
    }

    method SetColorTempMireds(mireds: uint16)
      requires Valid()
      modifies this`mireds, this`colorMode, this`pending, target
      ensures Cached() == SetMireds(build, old(Cached()), mireds)
      ensures target[..] == Targets(build, Cached()) && pending
    {
      this.mireds := mireds;
      if build.RgbBuild? {
        colorMode := COLOR_TEMP;
      }
      Apply();
    }

    method SetColorMode(mode: uint8)
      requires Valid()
      modifies this`colorMode, this`pending, target
      ensures Cached() == old(Cached()).(mode := mode)
      ensures target[..] == Targets(build, Cached()) && pending
    {
      colorMode := mode;
      Apply();
    }

    method SetHue(hue: uint8)
      requires Valid()
      modifies this`hue, this`colorMode, this`pending, target
      ensures Cached() == old(Cached()).(hue := hue, mode := HUE_SATURATION)
      ensures target[..] == Targets(build, Cached()) && pending
    {
      this.hue := hue;
      colorMode := HUE_SATURATION;
      Apply();
    }

    method SetSaturation(sat: uint8)
      requires Valid()
      modifies this`sat, this`colorMode, this`pending, target
      ensures Cached() == old(Cached()).(sat := sat, mode := HUE_SATURATION)
      ensures target[..] == Targets(build, Cached()) && pending
    {
      this.sat := sat;
      colorMode := HUE_SATURATION;
      Apply();
    }

    method SetXy(x: uint16, y: uint16)
      requires Valid()
      modifies this`x, this`y, this`colorMode, this`pending, target
      ensures Cached() == old(Cached()).(x := x, y := y, mode := XY)
      ensures target[..] == Targets(build, Cached()) && pending
    {
      this.x := x;
      this.y := y;
      colorMode := XY;
      Apply();
    }

    /** The targets follow the cache through every notification. */
    method PostAttributeChange(n: Notice)
      requires Valid() && target[..] == Targets(build, Cached())
      modifies this, target
      ensures Valid()
      ensures Cached() == AfterNotice(build, old(Cached()), n)
      ensures target[..] == Targets(build, Cached())
      ensures Cached() != old(Cached()) ==> pending
      ensures old(pending) ==> pending
    {
      if n.endpoint != LIGHT_ENDPOINT || n.value == [] {
        return;
      }
      if n.attribute.OnOffOnOff? {
        SetOnOff(n.value[0] != 0);
      } else if n.attribute.LevelCurrentLevel? {
        SetLevel(n.value[0]);
      } else if n.attribute.ColorTemperatureMireds? && |n.value| == 2 {
        SetColorTempMireds(Le16(n.value));
      } else if build.RgbBuild? {
        if n.attribute.ColorCurrentHue? {
          SetHue(n.value[0]);
        } else if n.attribute.ColorCurrentSaturation? {
          SetSaturation(n.value[0]);
        } else if (n.attribute.ColorCurrentX? || n.attribute.ColorCurrentY?) && |n.value| == 2 {
          if n.readX.ReadValue? && n.readY.ReadValue? {
            SetXy(n.readX.value, n.readY.value);
          }
        } else if n.attribute.ColorColorMode? {
          SetColorMode(n.value[0]);
        }
      }
    }

    /** Priming from live cluster state. */
    method Prime(dm: Cache, got: Reads)
      requires Valid() && target[..] == Targets(build, Cached())
      modifies this, target
      ensures Valid()
      ensures Cached() == AfterPriming(build, old(Cached()), dm, got)
      ensures target[..] == Targets(build, Cached())
      ensures old(pending) ==> pending
    {
      if got.level && dm.level != NULL_LEVEL {
        SetLevel(dm.level);
      }
      if got.mireds {
        SetColorTempMireds(dm.mireds);
      }
      if got.on {
        SetOnOff(dm.on);
      }
    }
  }
}
