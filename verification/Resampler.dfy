// libsrc/utils/ImageResampler.cpp: which source pixels are sampled, which bytes they are read
// from, and the conversion to RGB.

module ResamplerSpec {
  import opened Colors
  import opened Arithmetic

  datatype PixelFormat = YUYV | UYVY | BGR16 | BGR24 | RGB32 | BGR32 | NoChange
  datatype VideoMode = Video2D | Video3DSBS | Video3DTAB

  // The part of the source that is sampled, and the layout of its rows.
  datatype Source = Source(width: int, height: int, lineLength: int, format: PixelFormat)
  datatype Settings = Settings(
    hDecimation: int, vDecimation: int, cropLeft: int, cropRight: int, cropTop: int, cropBottom: int, mode: VideoMode)

  // In 3D mode half of the picture is cropped instead.
  function CropRight(s: Settings, src: Source): int {
    if s.mode == Video3DSBS then src.width / 2 else s.cropRight
  }

  function CropBottom(s: Settings, src: Source): int {
    if s.mode == Video3DTAB then src.height / 2 else s.cropBottom
  }

  predicate ValidCrop(s: Settings, src: Source) {
    && 0 < s.hDecimation && 0 < s.vDecimation && 0 <= src.width && 0 <= src.height && 0 <= src.lineLength
    && 0 <= s.cropLeft && 0 <= s.cropTop && 0 <= CropRight(s, src) && 0 <= CropBottom(s, src)
    && s.cropLeft + CropRight(s, src) <= src.width && s.cropTop + CropBottom(s, src) <= src.height
  }

  // The number of samples along an axis of `extent` pixels.
  function Samples(extent: int, decimation: int): int
    requires 0 < decimation
  {
    (extent - decimation / 2 + decimation - 1) / decimation
  }

  function OutputWidth(s: Settings, src: Source): int
    requires ValidCrop(s, src)
  {
    Samples(src.width - s.cropLeft - CropRight(s, src), s.hDecimation)
  }

  function OutputHeight(s: Settings, src: Source): int
    requires ValidCrop(s, src)
  {
    Samples(src.height - s.cropTop - CropBottom(s, src), s.vDecimation)
  }

  function SourceAt(crop: int, decimation: int, k: int): int {
    crop + decimation / 2 + k * decimation
  }

  // Main result: the k-th sample of an axis is taken exactly if it lies inside the cropped extent.
  lemma SampleTakenIff(crop: int, extent: int, decimation: int, k: nat)
    requires 0 < decimation && 0 <= extent
    ensures 0 <= Samples(extent, decimation)
    ensures k < Samples(extent, decimation) <==> SourceAt(crop, decimation, k) < crop + extent
  {
    var n := extent - decimation / 2 + decimation - 1;
    assert 0 <= n;
    var q := n / decimation;
    assert n == q * decimation + n % decimation;
    if k < q { MulLe(k + 1, q, decimation); }
    if q <= k { MulLe(q, k, decimation); }
    assert (k + 1) * decimation == k * decimation + decimation;
  }

  // The sample stands in the middle of its block of `decimation` pixels: as many lie before it as
  // after it, or one more.
  lemma SampleIsMiddle(crop: int, decimation: int, k: nat)
    requires 0 < decimation
    ensures var (at, first) := (SourceAt(crop, decimation, k), crop + k * decimation);
            var (before, after) := (at - first, first + decimation - 1 - at);
            0 <= after <= before <= after + 1
  {
  }

  // Of a 3D picture only the left or the upper half is sampled, after the configured crop.
  lemma HalfPicture(s: Settings, src: Source, x: nat, y: nat)
    requires ValidCrop(s, src)
    ensures var right := if s.mode == Video3DSBS then src.width - src.width / 2 else src.width - s.cropRight;
            x < OutputWidth(s, src) <==> SourceAt(s.cropLeft, s.hDecimation, x) < right
    ensures var bottom := if s.mode == Video3DTAB then src.height - src.height / 2 else src.height - s.cropBottom;
            y < OutputHeight(s, src) <==> SourceAt(s.cropTop, s.vDecimation, y) < bottom
  {
    hide Samples, SourceAt;
    SampleTakenIff(s.cropLeft, src.width - s.cropLeft - CropRight(s, src), s.hDecimation, x);
    SampleTakenIff(s.cropTop, src.height - s.cropTop - CropBottom(s, src), s.vDecimation, y);
  }

  function BytesPerPixel(f: PixelFormat): int {
    match f
    case BGR24 => 3
    case RGB32 => 4
    case BGR32 => 4
    case _ => 2
  }

  function PixelIndex(src: Source, x: int, y: int): int {
    src.lineLength * y + x * BytesPerPixel(src.format)
  }

  predicate Packed(f: PixelFormat) {
    f == YUYV || f == UYVY
  }

  // Where the luma and the two chroma bytes of a packed pixel are.
  function LumaIndex(src: Source, x: int, y: int): int {
    PixelIndex(src, x, y) + if src.format == UYVY then 1 else 0
  }

  function UIndex(src: Source, x: int, y: int): int {
    var i := PixelIndex(src, x, y);
    if src.format == UYVY then (if x % 2 == 0 then i else i - 2) else if x % 2 == 0 then i + 1 else i - 1
  }

  function VIndex(src: Source, x: int, y: int): int {
    var i := PixelIndex(src, x, y);
    if src.format == UYVY then (if x % 2 == 0 then i + 2 else i) else if x % 2 == 0 then i + 3 else i + 1
  }

  // The offsets, from the pixel's index, of the first and last byte read for it.
  function ReadFrom(f: PixelFormat, x: int): int {
    if Packed(f) && x % 2 == 1 then (if f == UYVY then -2 else -1) else 0
  }

  function ReadTo(f: PixelFormat, x: int): int {
    match f
    case UYVY => if x % 2 == 0 then 2 else 1
    case YUYV => if x % 2 == 0 then 3 else 1
    case BGR16 => 1
    case NoChange => -1
    case _ => 2
  }

  predicate ReadsInside(src: Source, x: int, y: int, lo: int, hi: int) {
    lo <= PixelIndex(src, x, y) + ReadFrom(src.format, x) && PixelIndex(src, x, y) + ReadTo(src.format, x) < hi
  }

  // For the packed formats these are the smallest and the largest index read.
  lemma PackedReads(src: Source, x: int, y: int)
    requires Packed(src.format)
    ensures var (l, u, v) := (LumaIndex(src, x, y), UIndex(src, x, y), VIndex(src, x, y));
            && Min(l, Min(u, v)) == PixelIndex(src, x, y) + ReadFrom(src.format, x)
            && Max(l, Max(u, v)) == PixelIndex(src, x, y) + ReadTo(src.format, x)
  {
  }

  // Main result: the bytes of a pixel lie in its row, and for the packed formats exactly unless
  // it is the last pixel of a row of odd width.
  lemma BytesInRowIff(src: Source, x: int, y: int)
    requires 0 <= x < src.width && src.format != NoChange
    ensures var row := src.lineLength * y;
            ReadsInside(src, x, y, row, row + src.width * BytesPerPixel(src.format))
            <==> (Packed(src.format) ==> x % 2 == 1 || x + 1 < src.width)
  {
  }

  const ODD_ROW := Source(3, 1, 6, YUYV)
  const WHOLE := Settings(1, 1, 0, 0, 0, 0, Video2D)

  // The failing case is reachable: of a single row of three pixels the last one is sampled, and its
  // second chroma byte lies beyond the row and the buffer.
  lemma OddRowReadsBeyond()
    ensures ValidCrop(WHOLE, ODD_ROW)
    ensures 2 < OutputWidth(WHOLE, ODD_ROW) && 0 < OutputHeight(WHOLE, ODD_ROW)
    ensures SourceAt(WHOLE.cropLeft, WHOLE.hDecimation, 2) == 2 && SourceAt(WHOLE.cropTop, WHOLE.vDecimation, 0) == 0
    ensures VIndex(ODD_ROW, 2, 0) >= ODD_ROW.lineLength * ODD_ROW.height
  {
    SampleTakenIff(0, 3, 1, 2);
    SampleTakenIff(0, 1, 1, 0);
    assert SourceAt(0, 1, 2) == 2 && SourceAt(0, 1, 0) == 0;
    assert VIndex(ODD_ROW, 2, 0) == 7;
    hide SourceAt, VIndex, Samples;
  }

  // Main result: both pixels of a pair read the same chroma bytes, those of their own pair.
  lemma PairSharesChroma(src: Source, pair: int, y: int)
    requires Packed(src.format)
    ensures UIndex(src, 2 * pair, y) == UIndex(src, 2 * pair + 1, y)
    ensures VIndex(src, 2 * pair, y) == VIndex(src, 2 * pair + 1, y)
    ensures var first := src.lineLength * y + 4 * pair;
            && first <= UIndex(src, 2 * pair, y) < first + 4 && first <= VIndex(src, 2 * pair, y) < first + 4
            && {LumaIndex(src, 2 * pair, y), LumaIndex(src, 2 * pair + 1, y), UIndex(src, 2 * pair, y),
                VIndex(src, 2 * pair, y)} == {first, first + 1, first + 2, first + 3}
  {
  }

  // ---------------------------------------------------------------- colours

  function Clamp(x: int): Byte {
    if x < 0 then 0 else if x > 255 then 255 else x
  }

  // An arithmetic shift by 8 is a division rounding down.
  function Yuv2Rgb(y: Byte, u: Byte, v: Byte): ColorRgb {
    var c, d, e := y - 16, u - 128, v - 128;
    ColorRgb(Clamp((298 * c + 409 * e + 128) / 256),
             Clamp((298 * c - 100 * d - 208 * e + 128) / 256),
             Clamp((298 * c + 516 * d + 128) / 256))
  }

  // Without chroma the result is grey, black up to 16, white from 235, and never darker for more luma.
  lemma GreyScale(y: Byte, y': Byte)
    requires y <= y'
    ensures var g, g' := Yuv2Rgb(y, 128, 128), Yuv2Rgb(y', 128, 128);
            && g.red == g.green == g.blue && g.red <= g'.red
            && (y <= 16 ==> g == BLACK) && (235 <= y ==> g == ColorRgb(255, 255, 255))
  {
  }

  // Red follows V alone, blue follows U alone, and more of either never adds green.
  lemma ChromaDirections(y: Byte, u: Byte, v: Byte, u': Byte, v': Byte)
    requires u <= u' && v <= v'
    ensures var c := Yuv2Rgb(y, u, v);
            && c.red <= Yuv2Rgb(y, u', v').red && Yuv2Rgb(y, u', v).red == c.red
            && c.blue <= Yuv2Rgb(y, u', v').blue && Yuv2Rgb(y, u, v').blue == c.blue
            && c.green >= Yuv2Rgb(y, u', v').green
  {
  }

  // The exact studio-range conversion, before it is cut to a byte.
  function ExactRed(y: Byte, v: Byte): real {
    255.0 / 219.0 * (y - 16) as real + 1.402 * 255.0 / 224.0 * (v - 128) as real
  }

  function ExactGreen(y: Byte, u: Byte, v: Byte): real {
    255.0 / 219.0 * (y - 16) as real - 0.344136 * 255.0 / 224.0 * (u - 128) as real
    - 0.714136 * 255.0 / 224.0 * (v - 128) as real
  }

  function ExactBlue(y: Byte, u: Byte): real {
    255.0 / 219.0 * (y - 16) as real + 1.772 * 255.0 / 224.0 * (u - 128) as real
  }

  function ClampReal(x: real): real {
    if x < 0.0 then 0.0 else if x > 255.0 then 255.0 else x
  }

  predicate WithinOne(c: Byte, exact: real) {
    -1.0 < c as real - ClampReal(exact) < 1.0
  }

  // The fixed-point coefficients decode every encoding to within one step of the exact colour.
  lemma CloseToExact(y: Byte, u: Byte, v: Byte)
    ensures var c := Yuv2Rgb(y, u, v);
            && WithinOne(c.red, ExactRed(y, v)) && WithinOne(c.green, ExactGreen(y, u, v))
            && WithinOne(c.blue, ExactBlue(y, u))
  {
  }

  // Bits 4-0 of the low byte, bits 2-0 and 7-5 across both, bits 7-3 of the high byte.
  function FromBgr16(low: Byte, high: Byte): ColorRgb {
    ColorRgb(high - high % 8, (high % 8 * 8 + low / 32) * 4, low % 32 * 8)
  }

  // The 16 bits come back from the colour.
  lemma Bgr16Lossless(low: Byte, high: Byte)
    ensures var c := FromBgr16(low, high);
            c.red / 8 * 2048 + c.green / 4 * 32 + c.blue / 8 == high * 256 + low
  {
  }

  function PixelAt(data: seq<Byte>, src: Source, x: int, y: int, before: ColorRgb): ColorRgb
    requires ReadsInside(src, x, y, 0, |data|)
  {
    var i := PixelIndex(src, x, y);
    match src.format
    case YUYV => Yuv2Rgb(data[LumaIndex(src, x, y)], data[UIndex(src, x, y)], data[VIndex(src, x, y)])
    case UYVY => Yuv2Rgb(data[LumaIndex(src, x, y)], data[UIndex(src, x, y)], data[VIndex(src, x, y)])
    case BGR16 => FromBgr16(data[i], data[i + 1])
    case BGR24 => ColorRgb(data[i + 2], data[i + 1], data[i])
    case RGB32 => ColorRgb(data[i], data[i + 1], data[i + 2])
    case BGR32 => ColorRgb(data[i + 2], data[i + 1], data[i])
    case NoChange => before
  }

  // What the bytes of a pixel, or of a pair of packed pixels, hold, by the name of the format.
  function Layout(f: PixelFormat): string {
    match f
    case YUYV => "YUYV"
    case UYVY => "UYVY"
    case BGR24 => "BGR"
    case RGB32 => "RGB."
    case BGR32 => "BGR."
    case BGR16 => "bb"
    case NoChange => "  "
  }

  // Main result: the bytes are read as the format is named. A packed pixel takes the U and the V
  // of its pair and the first or the second Y; the others take the byte of each channel's letter.
  lemma ReadAsNamed(data: seq<Byte>, src: Source, x: nat, y: nat, before: ColorRgb, j: nat, k: nat, l: nat)
    requires ReadsInside(src, x, y, 0, |data|) && j < |Layout(src.format)| && k < |Layout(src.format)|
    requires l < |Layout(src.format)|
    ensures var (f, name, row) := (src.format, Layout(src.format), src.lineLength * y);
            var first := row + if Packed(f) then x / 2 * 4 else x * |name|;
            && (Packed(f) && name[j] == 'Y' && (j < 2 <==> x % 2 == 0) && name[k] == 'U' && name[l] == 'V' ==>
                  && 0 <= first + j < |data| && 0 <= first + k < |data| && 0 <= first + l < |data|
                  && PixelAt(data, src, x, y, before) == Yuv2Rgb(data[first + j], data[first + k], data[first + l]))
            && (f != NoChange && name[j] == 'R' && name[k] == 'G' && name[l] == 'B' ==>
                  && 0 <= first + j < |data| && 0 <= first + k < |data| && 0 <= first + l < |data|
                  && PixelAt(data, src, x, y, before) == ColorRgb(data[first + j], data[first + k], data[first + l]))
            && (f == BGR16 ==>
                  && 0 <= first && first + 1 < |data|
                  && PixelAt(data, src, x, y, before) == FromBgr16(data[first], data[first + 1]))
  {
    hide Yuv2Rgb, FromBgr16;
    assert x == x / 2 * 2 + x % 2;
  }

  // ---------------------------------------------------------------- the whole image

  // Every sampled pixel can be read.
  ghost predicate Readable(data: seq<Byte>, s: Settings, src: Source)
    requires ValidCrop(s, src)
  {
    forall x, y {:trigger SourceAt(s.cropLeft, s.hDecimation, x), SourceAt(s.cropTop, s.vDecimation, y)} ::
      0 <= x < OutputWidth(s, src) && 0 <= y < OutputHeight(s, src) ==>
        ReadsInside(src, SourceAt(s.cropLeft, s.hDecimation, x), SourceAt(s.cropTop, s.vDecimation, y), 0, |data|)
  }

  predicate EvenIfPacked(src: Source) {
    Packed(src.format) ==> src.width % 2 == 0
  }

  lemma RowInBuffer(src: Source, x: int, y: int, size: int)
    requires 0 <= x < src.width && 0 <= y < src.height && src.format != NoChange && EvenIfPacked(src)
    requires src.width * BytesPerPixel(src.format) <= src.lineLength && src.lineLength * src.height <= size
    ensures ReadsInside(src, x, y, 0, size)
  {
    BytesInRowIff(src, x, y);
    assert (y + 1) * src.lineLength == y * src.lineLength + src.lineLength;
    MulLe(0, y, src.lineLength);
    MulLe(y + 1, src.height, src.lineLength);
  }

  // Main result: with whole pixel pairs in a row, no sample reads outside the buffer.
  lemma AllReadable(data: seq<Byte>, s: Settings, src: Source)
    requires ValidCrop(s, src) && src.format != NoChange && EvenIfPacked(src)
    requires src.width * BytesPerPixel(src.format) <= src.lineLength && src.lineLength * src.height <= |data|
    ensures Readable(data, s, src)
  {
    hide ReadsInside, Samples;
    forall x, y {:trigger SourceAt(s.cropLeft, s.hDecimation, x), SourceAt(s.cropTop, s.vDecimation, y)}
      | 0 <= x < OutputWidth(s, src) && 0 <= y < OutputHeight(s, src)
      ensures ReadsInside(src, SourceAt(s.cropLeft, s.hDecimation, x), SourceAt(s.cropTop, s.vDecimation, y), 0, |data|)
    {
      SampleTakenIff(s.cropLeft, src.width - s.cropLeft - CropRight(s, src), s.hDecimation, x);
      SampleTakenIff(s.cropTop, src.height - s.cropTop - CropBottom(s, src), s.vDecimation, y);
      MulLe(0, x, s.hDecimation);
      MulLe(0, y, s.vDecimation);
      RowInBuffer(src, SourceAt(s.cropLeft, s.hDecimation, x), SourceAt(s.cropTop, s.vDecimation, y), |data|);
    }
  }

  // The size of the output image after the resize test, which asks for both sizes to differ.
  function ResizedTo(width: int, height: int, outWidth: int, outHeight: int): (int, int) {
    if height != outHeight && width != outWidth then (outWidth, outHeight) else (width, height)
  }

  // The output has the right size exactly if both sizes were right or both were wrong.
  lemma ResizeIff(width: int, height: int, outWidth: int, outHeight: int)
    ensures ResizedTo(width, height, outWidth, outHeight) == (outWidth, outHeight)
            <==> ((width == outWidth) <==> (height == outHeight))
  {
  }

  // The failing case is reachable: after a picture of 20 by 20 one of 20 by 40 keeps the old size.
  lemma SameWidthKeepsHeight()
    ensures var (s, small, tall) := (Settings(2, 2, 0, 0, 0, 0, Video2D), Source(20, 20, 80, RGB32),
                                     Source(20, 40, 80, RGB32));
            && ValidCrop(s, small) && ValidCrop(s, tall)
            && (OutputWidth(s, small), OutputHeight(s, small)) == (10, 10) && OutputHeight(s, tall) == 20
            && ResizedTo(10, 10, OutputWidth(s, tall), OutputHeight(s, tall)) == (10, 10)
  {
  }
}

module Resampler {
  import opened Colors
  import opened Images
  import opened Arithmetic
  import opened ResamplerSpec

  predicate Inside(x: int, y: int, width: int, height: int) {
    0 <= x < width && 0 <= y < height
  }

  lemma IndexUnique(x: int, y: int, x': int, y': int, width: int)
    requires 0 <= x < width && 0 <= x' < width && Index(x, y, width) == Index(x', y', width)
    ensures x == x' && y == y'
  {
    assert (y - y') * width == x' - x;
    if y' + 1 <= y { MulLe(1, y - y', width); assert false; }
    if y + 1 <= y' { MulLe(y - y', -1, width); assert false; }
  }

  // What the output shows at (x, y) when it held `before` there.
  ghost function Sample(data: seq<Byte>, s: Settings, src: Source, x: int, y: int, before: ColorRgb): ColorRgb
    requires ValidCrop(s, src) && Readable(data, s, src)
    requires Inside(x, y, OutputWidth(s, src), OutputHeight(s, src))
  {
    var (xSource, ySource) := (SourceAt(s.cropLeft, s.hDecimation, x), SourceAt(s.cropTop, s.vDecimation, y));
    assert ReadsInside(src, xSource, ySource, 0, |data|);
    PixelAt(data, src, xSource, ySource, before)
  }

  // The image written to: resizing keeps the pixels unless they are too few.
  class OutputImage {
    var width: nat
    var height: nat
    var pixels: array<ColorRgb>

    ghost predicate Valid()
      reads this
    {
      width * height <= pixels.Length
    }

    constructor (width: nat, height: nat)
      ensures Valid() && this.width == width && this.height == height && fresh(pixels)
    {
      this.width, this.height := width, height;
      pixels := new ColorRgb[width * height](_ => BLACK);
    }

    method Resize(width: nat, height: nat)
      requires Valid()
      modifies this
      ensures Valid() && this.width == width && this.height == height
      ensures if width * height <= old(pixels).Length then pixels == old(pixels) else fresh(pixels)
    {
      if width * height > pixels.Length {
        pixels := new ColorRgb[width * height](_ => BLACK);
      }
      this.width, this.height := width, height;
    }
  }

  class ImageResampler {
    const settings: Settings

    constructor (settings: Settings)
      ensures this.settings == settings
    {
      this.settings := settings;
    }

    // Fills an output image whose size was right or is wrong in both directions, see ResizeIff; an
    // unknown format leaves an image of the right size alone.
    method ProcessImage(data: seq<Byte>, src: Source, output: OutputImage)
      requires ValidCrop(settings, src) && Readable(data, settings, src) && output.Valid()
      requires output.width == OutputWidth(settings, src) <==> output.height == OutputHeight(settings, src)
      modifies output, output.pixels
      ensures output.Valid()
      ensures output.width == OutputWidth(settings, src) && output.height == OutputHeight(settings, src)
      ensures old(output.width) == output.width && src.format == NoChange ==>
                output.pixels == old(output.pixels) && output.pixels[..] == old(output.pixels[..])
      ensures src.format != NoChange ==>
                forall x, y :: Inside(x, y, output.width, output.height) ==>
                  var i := Index(x, y, output.width);
                  0 <= i < output.pixels.Length && output.pixels[i] == Sample(data, settings, src, x, y, BLACK)
    {
      hide Index, Sample, OutputWidth, OutputHeight, Readable;
      var outputWidth, outputHeight := OutputWidth(settings, src), OutputHeight(settings, src);
      SizeIsNat(settings, src);
      if output.height != outputHeight && output.width != outputWidth {
        output.Resize(outputWidth, outputHeight);
      }
      ghost var before := output.pixels[..];
      FillPixels(data, src, output.pixels);
      forall x, y | src.format != NoChange && Inside(x, y, outputWidth, outputHeight)
        ensures var i := Index(x, y, outputWidth);
                0 <= i < output.pixels.Length && output.pixels[i] == Sample(data, settings, src, x, y, BLACK)
      {
        SampleIgnores(data, settings, src, x, y, before[Index(x, y, outputWidth)], BLACK);
      }
    }

    // A known format replaces whatever the output held.
    static lemma SampleIgnores(data: seq<Byte>, s: Settings, src: Source, x: int, y: int, was: ColorRgb, was': ColorRgb)
      requires ValidCrop(s, src) && Readable(data, s, src) && src.format != NoChange
      requires Inside(x, y, OutputWidth(s, src), OutputHeight(s, src))
      ensures Sample(data, s, src, x, y, was) == Sample(data, s, src, x, y, was')
    {
      hide Readable, OutputWidth, OutputHeight;
      SampleReadable(data, s, src, x, y, was);
      SampleReadable(data, s, src, x, y, was');
    }

    static lemma SizeIsNat(s: Settings, src: Source)
      requires ValidCrop(s, src)
      ensures 0 <= OutputWidth(s, src) && 0 <= OutputHeight(s, src)
    {
      SampleTakenIff(s.cropLeft, src.width - s.cropLeft - CropRight(s, src), s.hDecimation, 0);
      SampleTakenIff(s.cropTop, src.height - s.cropTop - CropBottom(s, src), s.vDecimation, 0);
    }

    // The two nested loops; an unknown format leaves every pixel alone.
    method FillPixels(data: seq<Byte>, src: Source, output: array<ColorRgb>)
      requires ValidCrop(settings, src) && Readable(data, settings, src)
      requires OutputWidth(settings, src) * OutputHeight(settings, src) <= output.Length
      modifies output
      ensures src.format == NoChange ==> output[..] == old(output[..])
      ensures forall x, y :: Inside(x, y, OutputWidth(settings, src), OutputHeight(settings, src)) ==>
                var i := Index(x, y, OutputWidth(settings, src));
                0 <= i < output.Length && output[i] == Sample(data, settings, src, x, y, old(output[..])[i])
    {
      hide Index, Sample, OutputWidth, OutputHeight, Readable, ReadsInside;
      ghost var before := output[..];
      var width, height := OutputWidth(settings, src), OutputHeight(settings, src);
      forall x, y | Inside(x, y, width, height)
        ensures 0 <= Index(x, y, width) < output.Length
      {
        InImage(x, y, width, height);
      }
      var yDest := 0;
      var ySource := settings.cropTop + settings.vDecimation / 2;
      while yDest < height
        invariant 0 <= yDest && ySource == SourceAt(settings.cropTop, settings.vDecimation, yDest)
        invariant Done(data, settings, src, before, output[..], 0, yDest)
        invariant src.format == NoChange ==> output[..] == before
        decreases height - yDest
      {
        var xDest := 0;
        var xSource := settings.cropLeft + settings.hDecimation / 2;
        while xDest < width
          invariant 0 <= xDest && xSource == SourceAt(settings.cropLeft, settings.hDecimation, xDest)
          invariant Done(data, settings, src, before, output[..], xDest, yDest)
          invariant src.format == NoChange ==> output[..] == before
          decreases width - xDest
        {
          assert Inside(xDest, yDest, width, height);
          var i := Index(xDest, yDest, width);
          SampleReadable(data, settings, src, xDest, yDest, output[i]);
          var rgb := ReadPixel(data, src, xSource, ySource, output[i]);
          DoneStep(data, settings, src, before, output[..], xDest, yDest, rgb);
          output[i] := rgb;
          NextSource(settings.cropLeft, settings.hDecimation, xDest);
          xSource, xDest := xSource + settings.hDecimation, xDest + 1;
        }
        DoneRow(data, settings, src, before, output[..], xDest, yDest);
        NextSource(settings.cropTop, settings.vDecimation, yDest);
        ySource, yDest := ySource + settings.vDecimation, yDest + 1;
      }
      DoneAll(data, settings, src, before, output[..], yDest);
    }

    static lemma NextSource(crop: int, decimation: int, k: int)
      ensures SourceAt(crop, decimation, k + 1) == SourceAt(crop, decimation, k) + decimation
    {
    }

    // The switch over the pixel format.
    static method ReadPixel(data: seq<Byte>, src: Source, xSource: int, ySource: int, before: ColorRgb)
      returns (rgb: ColorRgb)
      requires ReadsInside(src, xSource, ySource, 0, |data|)
      ensures rgb == PixelAt(data, src, xSource, ySource, before)
    {
      hide Yuv2Rgb, FromBgr16;
      rgb := before;
      match src.format {
        case UYVY => rgb := ReadUyvy(data, src, xSource, ySource);
        case YUYV => rgb := ReadYuyv(data, src, xSource, ySource);
        case BGR16 =>
          var index := src.lineLength * ySource + xSource * 2;
          rgb := ReadBgr16(data[index], data[index + 1]);
        case BGR24 =>
          var index := src.lineLength * ySource + xSource * 3;
          rgb := ColorRgb(data[index + 2], data[index + 1], data[index]);
        case RGB32 =>
          var index := src.lineLength * ySource + xSource * 4;
          rgb := ColorRgb(data[index], data[index + 1], data[index + 2]);
        case BGR32 =>
          var index := src.lineLength * ySource + xSource * 4;
          rgb := ColorRgb(data[index + 2], data[index + 1], data[index]);
        case NoChange =>
      }
    }

    static method ReadUyvy(data: seq<Byte>, src: Source, xSource: int, ySource: int) returns (rgb: ColorRgb)
      requires src.format == UYVY && ReadsInside(src, xSource, ySource, 0, |data|)
      ensures rgb == PixelAt(data, src, xSource, ySource, rgb)
    {
      hide Yuv2Rgb;
      var index := src.lineLength * ySource + xSource * 2;
      var y := data[index + 1];
      var u := if xSource % 2 == 0 then data[index] else data[index - 2];
      var v := if xSource % 2 == 0 then data[index + 2] else data[index];
      rgb := Yuv2Rgb(y, u, v);
    }

    static method ReadYuyv(data: seq<Byte>, src: Source, xSource: int, ySource: int) returns (rgb: ColorRgb)
      requires src.format == YUYV && ReadsInside(src, xSource, ySource, 0, |data|)
      ensures rgb == PixelAt(data, src, xSource, ySource, rgb)
    {
      hide Yuv2Rgb;
      var index := src.lineLength * ySource + xSource * 2;
      var y := data[index];
      var u := if xSource % 2 == 0 then data[index + 1] else data[index - 1];
      var v := if xSource % 2 == 0 then data[index + 3] else data[index + 1];
      rgb := Yuv2Rgb(y, u, v);
    }

    static method ReadBgr16(low: Byte, high: Byte) returns (rgb: ColorRgb)
      ensures rgb == FromBgr16(low, high)
    {
      var blue := low % 32 * 8;
      var green := (high % 8 * 8 + low / 32) * 4;
      var red := high - high % 8;
      rgb := ColorRgb(red, green, blue);
    }
  }

  // The pixels before (xDest, yDest) in image order are sampled, the others untouched.
  ghost predicate Done(data: seq<Byte>, s: Settings, src: Source, before: seq<ColorRgb>, now: seq<ColorRgb>,
                       xDest: int, yDest: int)
    requires ValidCrop(s, src) && Readable(data, s, src)
  {
    var w, h := OutputWidth(s, src), OutputHeight(s, src);
    && |before| == |now| >= w * h
    && forall x, y :: Inside(x, y, w, h) ==>
         var i := Index(x, y, w);
         && 0 <= i < |now|
         && now[i] == if y < yDest || (y == yDest && x < xDest)
                      then Sample(data, s, src, x, y, before[i]) else before[i]
  }

  lemma SampleReadable(data: seq<Byte>, s: Settings, src: Source, x: int, y: int, before: ColorRgb)
    requires ValidCrop(s, src) && Readable(data, s, src) && Inside(x, y, OutputWidth(s, src), OutputHeight(s, src))
    ensures var (xs, ys) := (SourceAt(s.cropLeft, s.hDecimation, x), SourceAt(s.cropTop, s.vDecimation, y));
            && ReadsInside(src, xs, ys, 0, |data|)
            && Sample(data, s, src, x, y, before) == PixelAt(data, src, xs, ys, before)
  {
  }

  lemma DoneStep(data: seq<Byte>, s: Settings, src: Source, before: seq<ColorRgb>, now: seq<ColorRgb>,
                 xDest: int, yDest: int, rgb: ColorRgb)
    requires ValidCrop(s, src) && Readable(data, s, src) && Done(data, s, src, before, now, xDest, yDest)
    requires Inside(xDest, yDest, OutputWidth(s, src), OutputHeight(s, src))
    requires rgb == Sample(data, s, src, xDest, yDest, now[Index(xDest, yDest, OutputWidth(s, src))])
    ensures 0 <= Index(xDest, yDest, OutputWidth(s, src)) < |now|
    ensures Done(data, s, src, before, now[Index(xDest, yDest, OutputWidth(s, src)) := rgb], xDest + 1, yDest)
  {
    hide Index, Sample, OutputWidth, OutputHeight, Readable;
    var w, h := OutputWidth(s, src), OutputHeight(s, src);
    var at := Index(xDest, yDest, w);
    forall x, y | Inside(x, y, w, h) && Index(x, y, w) == at
      ensures x == xDest && y == yDest
    {
      IndexUnique(x, y, xDest, yDest, w);
    }
  }

  lemma DoneRow(data: seq<Byte>, s: Settings, src: Source, before: seq<ColorRgb>, now: seq<ColorRgb>,
                xDest: int, yDest: int)
    requires ValidCrop(s, src) && Readable(data, s, src) && Done(data, s, src, before, now, xDest, yDest)
    requires OutputWidth(s, src) <= xDest
    ensures Done(data, s, src, before, now, 0, yDest + 1)
  {
    hide Index, Sample, OutputWidth, OutputHeight, Readable;
  }

  lemma DoneAll(data: seq<Byte>, s: Settings, src: Source, before: seq<ColorRgb>, now: seq<ColorRgb>, yDest: int)
    requires ValidCrop(s, src) && Readable(data, s, src) && Done(data, s, src, before, now, 0, yDest)
    requires OutputHeight(s, src) <= yDest
    ensures forall x, y :: Inside(x, y, OutputWidth(s, src), OutputHeight(s, src)) ==>
              var i := Index(x, y, OutputWidth(s, src));
              0 <= i < |now| == |before| && now[i] == Sample(data, s, src, x, y, before[i])
  {
    hide Index, Sample, OutputWidth, OutputHeight, Readable;
  }
}
