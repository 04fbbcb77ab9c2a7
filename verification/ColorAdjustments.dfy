// libsrc/utils/RgbChannelAdjustment.cpp and libsrc/hyperion/MultiColorAdjustment.cpp: the eight
// corner colours of the RGB cube, mixed by byte arithmetic on lazily filled tables.

module AdjustmentSpec {
  import opened Colors
  import opened Arithmetic

  const FULL := 65025 // 255 * 255

  // A corner weight scaled by brightness and by one byte of the corner's colour.
  function Scaled(brightness: Byte, input: Byte, adjust: Byte): Byte {
    Min(brightness * input * adjust / FULL, 255)
  }

  function ScaledColor(brightness: Byte, input: Byte, adjust: ColorRgb): ColorRgb {
    ColorRgb(Scaled(brightness, input, adjust.red), Scaled(brightness, input, adjust.green),
             Scaled(brightness, input, adjust.blue))
  }

  lemma ScaledAtMost(brightness: Byte, input: Byte, adjust: Byte)
    ensures var s := Scaled(brightness, input, adjust);
            s <= input && s * 65025 <= brightness * input * adjust < (s + 1) * 65025
    ensures brightness == 255 && adjust == 255 ==> Scaled(brightness, input, adjust) == input
    ensures adjust == 0 ==> Scaled(brightness, input, adjust) == 0
  {
    assert brightness * adjust <= FULL by {
      MulLe(brightness, 255, adjust);
    }
    MulLe(brightness * adjust, FULL, input);
    assert brightness * input * adjust == brightness * adjust * input;
    assert 0 <= brightness * adjust * input;
  }

  // The part of a transformed colour that falls to each corner.
  datatype Weights = Weights(black: Byte, red: Byte, green: Byte, blue: Byte,
                             cyan: Byte, magenta: Byte, yellow: Byte, white: Byte)

  function Part(a: int, b: int, c: int): int {
    a * b * c / FULL
  }

  lemma PartIsByte(a: int, b: int, c: int)
    requires 0 <= a <= 255 && 0 <= b <= 255 && 0 <= c <= 255
    ensures 0 <= Part(a, b, c) < 256
    ensures Part(a, b, c) * FULL <= a * b * c < (Part(a, b, c) + 1) * FULL
  {
    MulLe(a, 255, b);
    MulLe(0, a, b);
    MulLe(a * b, FULL, c);
    MulLe(0, a * b, c);
  }

  function WeightsOf(c: ColorRgb): Weights {
    var (r, g, b) := (c.red, c.green, c.blue);
    PartIsByte(255 - r, 255 - g, 255 - b); PartIsByte(r, 255 - g, 255 - b);
    PartIsByte(255 - r, g, 255 - b); PartIsByte(255 - r, 255 - g, b);
    PartIsByte(255 - r, g, b); PartIsByte(r, 255 - g, b);
    PartIsByte(r, g, 255 - b); PartIsByte(r, g, b);
    Weights(Part(255 - r, 255 - g, 255 - b), Part(r, 255 - g, 255 - b),
            Part(255 - r, g, 255 - b), Part(255 - r, 255 - g, b),
            Part(255 - r, g, b), Part(r, 255 - g, b), Part(r, g, 255 - b), Part(r, g, b))
  }

  // The corner colours and brightness components of one calibration.
  datatype Calibration = Calibration(
    black: ColorRgb, white: ColorRgb, red: ColorRgb, green: ColorRgb, blue: ColorRgb,
    cyan: ColorRgb, magenta: ColorRgb, yellow: ColorRgb, rgb: Byte, cmy: Byte, w: Byte)

  // The true sum of the eight contributions to one output channel.
  function Mixed(k: Calibration, c: ColorRgb, ch: Channel): nat {
    var p := WeightsOf(c);
    Scaled(255, p.black, Get(k.black, ch))
    + Scaled(k.rgb, p.red, Get(k.red, ch)) + Scaled(k.rgb, p.green, Get(k.green, ch))
    + Scaled(k.rgb, p.blue, Get(k.blue, ch))
    + Scaled(k.cmy, p.cyan, Get(k.cyan, ch)) + Scaled(k.cmy, p.magenta, Get(k.magenta, ch))
    + Scaled(k.cmy, p.yellow, Get(k.yellow, ch))
    + Scaled(k.w, p.white, Get(k.white, ch))
  }

  // What the uint8_t additions leave of it.
  function Adjusted(k: Calibration, c: ColorRgb): ColorRgb {
    ColorRgb(Mixed(k, c, Red) % 256, Mixed(k, c, Green) % 256, Mixed(k, c, Blue) % 256)
  }

  // The two corners along one edge of the cube share what the edge's end points have.
  lemma EdgeSum(a: int, b: int, c: int)
    ensures a * b * (255 - c) + a * b * c == 255 * (a * b)
  {
  }

  // The pieces the four edges parallel to the blue axis carry, by their red and green ends.
  lemma FaceSum(r: Byte, g: Byte)
    ensures r * (255 - g) + r * g == 255 * r
    ensures (255 - r) * (255 - g) + (255 - r) * g == 255 * (255 - r)
  {
  }

  // The pieces of the whole cube, before division.
  lemma CubeSum(r: Byte, g: Byte, b: Byte)
    ensures (255 - r) * (255 - g) * (255 - b) + (255 - r) * (255 - g) * b
            + r * (255 - g) * (255 - b) + r * (255 - g) * b
            + (255 - r) * g * (255 - b) + (255 - r) * g * b
            + r * g * (255 - b) + r * g * b == 255 * FULL
  {
    EdgeSum(255 - r, 255 - g, b);
    EdgeSum(r, 255 - g, b);
    EdgeSum(255 - r, g, b);
    EdgeSum(r, g, b);
    FaceSum(r, g);
  }

  // Main result: the eight corner weights of any colour add up to at most 255.
  lemma WeightsSum(c: ColorRgb)
    ensures var p := WeightsOf(c);
            p.black + p.red + p.green + p.blue + p.cyan + p.magenta + p.yellow + p.white <= 255
  {
    hide Part;
    var (r, g, b) := (c.red, c.green, c.blue);
    PartIsByte(255 - r, 255 - g, 255 - b); PartIsByte(r, 255 - g, 255 - b);
    PartIsByte(255 - r, g, 255 - b); PartIsByte(255 - r, 255 - g, b);
    PartIsByte(255 - r, g, b); PartIsByte(r, 255 - g, b);
    PartIsByte(r, g, 255 - b); PartIsByte(r, g, b);
    CubeSum(r, g, b);
  }

  // Main result: for every calibration and colour the sum of the contributions fits a byte, so
  // the uint8_t additions never wrap.
  lemma NeverWraps(k: Calibration, c: ColorRgb, ch: Channel)
    ensures Mixed(k, c, ch) <= 255
    ensures Get(Adjusted(k, c), ch) == Mixed(k, c, ch)
  {
    hide Scaled, WeightsOf;
    forall ch: Channel
      ensures Mixed(k, c, ch) <= 255
    {
      var p := WeightsOf(c);
      WeightsSum(c);
      ScaledAtMost(255, p.black, Get(k.black, ch));
      ScaledAtMost(k.rgb, p.red, Get(k.red, ch));
      ScaledAtMost(k.rgb, p.green, Get(k.green, ch));
      ScaledAtMost(k.rgb, p.blue, Get(k.blue, ch));
      ScaledAtMost(k.cmy, p.cyan, Get(k.cyan, ch));
      ScaledAtMost(k.cmy, p.magenta, Get(k.magenta, ch));
      ScaledAtMost(k.cmy, p.yellow, Get(k.yellow, ch));
      ScaledAtMost(k.w, p.white, Get(k.white, ch));
    }
  }

  // The corner colours of an unconfigured channel adjustment, at full brightness.
  const NEUTRAL := Calibration(
    BLACK, ColorRgb(255, 255, 255), ColorRgb(255, 0, 0), ColorRgb(0, 255, 0), ColorRgb(0, 0, 255),
    ColorRgb(0, 255, 255), ColorRgb(255, 0, 255), ColorRgb(255, 255, 0), 255, 255, 255)

  // The four corners where a channel is full carry that channel, minus four roundings.
  lemma FourParts(a: Byte, b: Byte, c: Byte)
    ensures var s := Part(a, 255 - b, 255 - c) + Part(a, b, 255 - c) + Part(a, 255 - b, c) + Part(a, b, c);
            a - 3 <= s <= a
  {
    hide Part;
    PartIsByte(a, 255 - b, 255 - c); PartIsByte(a, b, 255 - c);
    PartIsByte(a, 255 - b, c); PartIsByte(a, b, c);
    EdgeSum(a, 255 - b, c);
    EdgeSum(a, b, c);
    FaceSum(a, b);
  }

  lemma PartSwap(a: int, b: int, c: int)
    ensures Part(a, b, c) == Part(b, a, c) && Part(a, b, c) == Part(c, a, b)
  {
    assert a * b * c == b * a * c && a * b * c == c * a * b;
  }

  // Main result: with the default corners at full brightness every channel loses at most 3.
  lemma NeutralLosesAtMostThree(c: ColorRgb, ch: Channel)
    ensures Get(c, ch) - 3 <= Get(Adjusted(NEUTRAL, c), ch) <= Get(c, ch)
  {
    hide Scaled, Part;
    NeverWraps(NEUTRAL, c, ch);
    var p := WeightsOf(c);
    var (r, g, b) := (c.red, c.green, c.blue);
    forall w: Byte
      ensures Scaled(255, w, 255) == w && Scaled(255, w, 0) == 0
    {
      ScaledAtMost(255, w, 255);
      ScaledAtMost(255, w, 0);
    }
    match ch {
      case Red => FourParts(r, g, b);
      case Green =>
        FourParts(g, r, b);
        PartSwap(g, 255 - r, 255 - b); PartSwap(g, r, 255 - b); PartSwap(g, 255 - r, b); PartSwap(g, r, b);
      case Blue =>
        FourParts(b, r, g);
        PartSwap(255 - r, 255 - g, b); PartSwap(r, 255 - g, b); PartSwap(255 - r, g, b); PartSwap(r, g, b);
    }
  }

  // Every channel of the two colours is full or empty as the flags say.
  function CubeCorner(r: bool, g: bool, b: bool): ColorRgb {
    ColorRgb(if r then 255 else 0, if g then 255 else 0, if b then 255 else 0)
  }

  // The configured colour a corner of the cube stands for.
  function CornerColor(k: Calibration, r: bool, g: bool, b: bool): ColorRgb {
    if r then (if g then (if b then k.white else k.yellow) else if b then k.magenta else k.red)
    else if g then (if b then k.cyan else k.green) else if b then k.blue else k.black
  }

  // The brightness that scales it: none for black, then by the number of full channels.
  function CornerBrightness(k: Calibration, r: bool, g: bool, b: bool): Byte {
    var full := (if r then 1 else 0) + (if g then 1 else 0) + (if b then 1 else 0);
    if full == 0 then 255 else if full == 1 then k.rgb else if full == 2 then k.cmy else k.w
  }

  lemma ScaledFull(brightness: Byte, adjust: Byte)
    ensures Scaled(brightness, 255, adjust) == brightness * adjust / 255
    ensures Scaled(brightness, 0, adjust) == 0
  {
    var q, x := brightness * adjust / 255, brightness * adjust;
    assert brightness * 255 * adjust == 255 * x;
    assert x == 255 * q + x % 255;
    assert 255 * x == q * 65025 + 255 * (x % 255);
    MulLe(brightness, 255, adjust);
    ScaledAtMost(brightness, 255, adjust);
    assert brightness * 0 * adjust == 0;
  }

  lemma CornerWeights(r: bool, g: bool, b: bool)
    ensures var p := WeightsOf(CubeCorner(r, g, b));
            && p.black == (if !r && !g && !b then 255 else 0) && p.white == (if r && g && b then 255 else 0)
            && p.red == (if r && !g && !b then 255 else 0) && p.cyan == (if !r && g && b then 255 else 0)
            && p.green == (if !r && g && !b then 255 else 0) && p.magenta == (if r && !g && b then 255 else 0)
            && p.blue == (if !r && !g && b then 255 else 0) && p.yellow == (if r && g && !b then 255 else 0)
  {
    assert 255 * 255 * 255 / FULL == 255;
  }

  // Main result: each corner of the cube becomes its own configured colour, scaled by the
  // brightness of its kind.
  lemma CornersShowTheirColors(k: Calibration, r: bool, g: bool, b: bool, ch: Channel)
    ensures Get(Adjusted(k, CubeCorner(r, g, b)), ch) ==
            CornerBrightness(k, r, g, b) * Get(CornerColor(k, r, g, b), ch) / 255
  {
    hide Scaled, WeightsOf;
    NeverWraps(k, CubeCorner(r, g, b), ch);
    CornerWeights(r, g, b);
    forall x: Byte, y: Byte
      ensures Scaled(x, 255, y) == x * y / 255 && Scaled(x, 0, y) == 0
    {
      ScaledFull(x, y);
    }
  }
}

module ColorAdjustments {
  import opened Colors
  import opened Arithmetic
  import opened AdjustmentSpec

  class RgbChannelAdjustment {
    const adjust: array<Byte>
    const mapping: array2<Byte>
    const initialized: array<bool>
    var brightness: Byte

    ghost function Footprint(): set<object> {
      {this, adjust, mapping, initialized}
    }

    // Every filled entry of the table holds the formula's value for the settings in force.
    ghost predicate Valid()
      reads Footprint()
    {
      && adjust.Length == 3 && initialized.Length == 256 && mapping.Length0 == 3 && mapping.Length1 == 256
      && forall c, i :: 0 <= c < 3 && 0 <= i < 256 && initialized[i] ==>
           mapping[c, i] == Scaled(brightness, i, adjust[c])
    }

    ghost function Adjustment(): ColorRgb
      requires Valid()
      reads Footprint()
    {
      ColorRgb(adjust[0], adjust[1], adjust[2])
    }

    constructor (adjustR: Byte, adjustG: Byte, adjustB: Byte)
      ensures Valid() && fresh(Footprint()) && Adjustment() == ColorRgb(adjustR, adjustG, adjustB)
    {
      adjust := new Byte[3];
      mapping := new Byte[3, 256];
      initialized := new bool[256];
      brightness := 0;
      new;
      var i := 0;
      while i < 256
        invariant 0 <= i <= 256 && forall k :: 0 <= k < i ==> !initialized[k]
      {
        initialized[i] := false;
        i := i + 1;
      }
      SetAdjustment(adjustR, adjustG, adjustB);
    }

    method ResetInitialized()
      requires initialized.Length == 256
      modifies initialized
      ensures forall i :: 0 <= i < 256 ==> !initialized[i]
    {
      var i := 0;
      while i < 256
        invariant 0 <= i <= 256 && forall k :: 0 <= k < i ==> !initialized[k]
      {
        initialized[i] := false;
        i := i + 1;
      }
    }

    method SetAdjustment(adjustR: Byte, adjustG: Byte, adjustB: Byte)
      requires Valid()
      modifies adjust, initialized
      ensures Valid() && Adjustment() == ColorRgb(adjustR, adjustG, adjustB)
    {
      adjust[0], adjust[1], adjust[2] := adjustR, adjustG, adjustB;
      ResetInitialized();
    }

    // Whatever was applied or set before, the result is the formula for the latest adjustment.
    method Apply(input: Byte, brightness: Byte) returns (red: Byte, green: Byte, blue: Byte)
      requires Valid()
      modifies this, mapping, initialized
      ensures Valid() && Adjustment() == old(Adjustment())
      ensures ColorRgb(red, green, blue) == ScaledColor(brightness, input, Adjustment())
    {
      hide Scaled;
      if this.brightness != brightness {
        this.brightness := brightness;
        ResetInitialized();
      }
      if !initialized[input] {
        mapping[0, input] := Scaled(this.brightness, input, adjust[0]);
        mapping[1, input] := Scaled(this.brightness, input, adjust[1]);
        mapping[2, input] := Scaled(this.brightness, input, adjust[2]);
        initialized[input] := true;
      }
      red, green, blue := mapping[0, input], mapping[1, input], mapping[2, input];
    }
  }

  // The eight channel adjustments of a ColorAdjustment, by their place in `parts`.
  datatype Corner = BlackCorner | WhiteCorner | RedCorner | GreenCorner
                  | BlueCorner | CyanCorner | MagentaCorner | YellowCorner

  function Place(c: Corner): (n: nat)
    ensures n < 8
  {
    match c
    case BlackCorner => 0
    case WhiteCorner => 1
    case RedCorner => 2
    case GreenCorner => 3
    case BlueCorner => 4
    case CyanCorner => 5
    case MagentaCorner => 6
    case YellowCorner => 7
  }

  class ColorAdjustment {
    const parts: seq<RgbChannelAdjustment>
    // The RgbTransform: gamma and backlight on the colour, and the three brightness components.
    const transform: ColorRgb -> ColorRgb
    const brightnessRgb: Byte
    const brightnessCmy: Byte
    const brightnessW: Byte
    ghost const footprint: set<object>

    constructor (parts: seq<RgbChannelAdjustment>, transform: ColorRgb -> ColorRgb, rgb: Byte, cmy: Byte, w: Byte)
      requires |parts| == 8 && (forall i :: 0 <= i < 8 ==> parts[i].Valid())
      requires forall i, j :: 0 <= i < j < 8 ==> parts[i].Footprint() !! parts[j].Footprint()
      ensures Valid() && this.parts == parts
    {
      this.parts := parts;
      this.transform := transform;
      brightnessRgb, brightnessCmy, brightnessW := rgb, cmy, w;
      footprint := set i, o | 0 <= i < 8 && o in parts[i].Footprint() :: o;
    }

    ghost predicate Valid()
      reads footprint
    {
      && |parts| == 8
      && (forall i :: 0 <= i < 8 ==> parts[i].Footprint() <= footprint && parts[i].Valid())
      && (forall i, j :: 0 <= i < j < 8 ==> parts[i].Footprint() !! parts[j].Footprint())
    }

    ghost function Color(c: Corner): ColorRgb
      requires Valid()
      reads footprint
    {
      parts[Place(c)].Adjustment()
    }

    ghost function Settings(): Calibration
      requires Valid()
      reads footprint
    {
      Calibration(Color(BlackCorner), Color(WhiteCorner), Color(RedCorner), Color(GreenCorner), Color(BlueCorner),
                  Color(CyanCorner), Color(MagentaCorner), Color(YellowCorner),
                  brightnessRgb, brightnessCmy, brightnessW)
    }

    // Applying one of the eight channel adjustments leaves the others alone.
    method ApplyPart(corner: Corner, input: Byte, brightness: Byte) returns (out: ColorRgb)
      requires Valid()
      modifies footprint
      ensures Valid() && forall c: Corner :: Color(c) == old(Color(c))
      ensures out == ScaledColor(brightness, input, old(Color(corner)))
    {
      hide ScaledColor;
      var n := Place(corner);
      var r, g, b := parts[n].Apply(input, brightness);
      out := ColorRgb(r, g, b);
      assert forall i :: 0 <= i < 8 && i != n ==> parts[i].Footprint() !! parts[n].Footprint();
    }

    method AdjustColor(color: ColorRgb) returns (adjusted: ColorRgb)
      requires Valid()
      modifies footprint
      ensures Valid() && Settings() == old(Settings())
      ensures adjusted == Adjusted(old(Settings()), transform(color))
    {
      hide Valid, Color, Scaled, WeightsOf;
      var p := WeightsOf(transform(color));
      var O := ApplyPart(BlackCorner, p.black, 255);
      var R := ApplyPart(RedCorner, p.red, brightnessRgb);
      var G := ApplyPart(GreenCorner, p.green, brightnessRgb);
      var B := ApplyPart(BlueCorner, p.blue, brightnessRgb);
      var C := ApplyPart(CyanCorner, p.cyan, brightnessCmy);
      var M := ApplyPart(MagentaCorner, p.magenta, brightnessCmy);
      var Y := ApplyPart(YellowCorner, p.yellow, brightnessCmy);
      var W := ApplyPart(WhiteCorner, p.white, brightnessW);
      adjusted := ColorRgb(
        (O.red + R.red + G.red + B.red + C.red + M.red + Y.red + W.red) % 256,
        (O.green + R.green + G.green + B.green + C.green + M.green + Y.green + W.green) % 256,
        (O.blue + R.blue + G.blue + B.blue + C.blue + M.blue + Y.blue + W.blue) % 256);
    }
  }

  class MultiColorAdjustment {
    var ledAdjustments: seq<ColorAdjustment?>
    ghost var footprint: set<object>

    // LEDs share a calibration or have nothing in common.
    ghost predicate Valid()
      reads this, footprint
    {
      && this !in footprint
      && (forall i :: 0 <= i < |ledAdjustments| && ledAdjustments[i] != null ==>
            ledAdjustments[i].footprint <= footprint && ledAdjustments[i].Valid())
      && (forall i, j :: 0 <= i < j < |ledAdjustments| && ledAdjustments[i] != null && ledAdjustments[j] != null ==>
            ledAdjustments[i] == ledAdjustments[j] || ledAdjustments[i].footprint !! ledAdjustments[j].footprint)
    }

    // The calibration of a LED, as it was before this call changed any table.
    ghost function Expected(i: nat, c: ColorRgb): ColorRgb
      requires Valid()
      reads this, footprint
    {
      if i < |ledAdjustments| && ledAdjustments[i] != null
      then Adjusted(ledAdjustments[i].Settings(), ledAdjustments[i].transform(c)) else c
    }

    // One LED is mixed; no calibration changes what it computes.
    method AdjustLed(i: nat, color: ColorRgb) returns (adjusted: ColorRgb)
      requires Valid() && i < |ledAdjustments|
      modifies footprint
      ensures Valid()
      ensures adjusted == old(Expected(i, color))
      ensures forall k, c {:trigger Expected(k, c)} :: 0 <= k ==> Expected(k, c) == old(Expected(k, c))
    {
      hide Adjusted, ColorAdjustment.Settings, ColorAdjustment.Valid;
      var adjustment := ledAdjustments[i];
      if adjustment == null {
        return color;
      }
      adjusted := adjustment.AdjustColor(color);
      forall k | 0 <= k < |ledAdjustments| && ledAdjustments[k] != null
        ensures ledAdjustments[k].Valid() && ledAdjustments[k].Settings() == old(ledAdjustments[k].Settings())
      {
        if ledAdjustments[k] != adjustment {
          assert ledAdjustments[k].footprint !! adjustment.footprint;
        }
      }
    }

    // Overwrites every LED that has a calibration, and no other.
    method ApplyAdjustment(ledColors: array<ColorRgb>)
      requires Valid() && this !in footprint && ledColors !in footprint
      modifies footprint, ledColors
      ensures Valid()
      ensures forall i :: 0 <= i < ledColors.Length ==> ledColors[i] == old(Expected(i, ledColors[i]))
    {
      hide Adjusted, ColorAdjustment.Settings, ColorAdjustment.Valid;
      ghost var before := ledColors[..];
      var itCnt := Min(|ledAdjustments|, ledColors.Length);
      var i := 0;
      while i < itCnt
        invariant 0 <= i <= itCnt
        invariant footprint == old(footprint) && ledAdjustments == old(ledAdjustments) && Valid()
        invariant forall k, c {:trigger Expected(k, c)} :: 0 <= k ==> Expected(k, c) == old(Expected(k, c))
        invariant forall k :: 0 <= k < i ==> ledColors[k] == old(Expected(k, before[k]))
        invariant forall k :: i <= k < ledColors.Length ==> ledColors[k] == before[k]
      {
        var color := AdjustLed(i, ledColors[i]);
        ledColors[i] := color;
        i := i + 1;
      }
    }
  }
}
