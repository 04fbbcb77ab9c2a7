// libsrc/hyperion/ImageToLedsMap.cpp and include/hyperion/ImageToLedsMap.h: which pixels belong
// to which LED, and the mean colours; include/hyperion/ImageProcessor.h: the map in use.

module Leds {
  datatype ColorOrder = RGB | RBG | GRB | BRG | GBR | BGR

  // Fractions of the image width and height, and the index of the LED to copy (-1: none).
  datatype Led = Led(index: nat, minX: real, maxX: real, minY: real, maxY: real,
                     clone: int, colorOrder: ColorOrder)

  // Clamped and ordered fractions, as createLedString leaves them.
  predicate Normalised(led: Led) {
    0.0 <= led.minX <= led.maxX <= 1.0 && 0.0 <= led.minY <= led.maxY <= 1.0
  }
}

module LedsMapSpec {
  import opened Colors
  import opened Images
  import opened Leds
  import opened Arithmetic

  const SMALLEST_AREA: real := 0.000001

  predicate HasArea(led: Led) {
    !(led.maxX - led.minX < SMALLEST_AREA || led.maxY - led.minY < SMALLEST_AREA)
  }

  // qRound of a value that is not negative.
  function Round(x: real): int {
    (x + 0.5).Floor
  }

  // First pixel and the pixel after the last one, of `actual` pixels starting at `offset`.
  function PixelRange(offset: int, actual: int, lo: real, hi: real): (int, int) {
    var from := Min(offset + Round(actual as real * lo), offset + actual - 1);
    var to := offset + Round(actual as real * hi);
    (from, Min(if from == to then to + 1 else to, offset + actual))
  }

  lemma RoundMonotone(actual: int, lo: real, hi: real)
    requires 0 < actual && 0.0 <= lo <= hi <= 1.0
    ensures 0 <= Round(actual as real * lo) <= Round(actual as real * hi) <= actual
  {
    assert 0.0 <= actual as real * lo;
    assert actual as real * lo <= actual as real * hi;
    assert actual as real * hi <= actual as real;
  }

  // Every LED gets at least one pixel, and only pixels inside the border.
  lemma RangeInside(offset: int, actual: int, lo: real, hi: real)
    requires 0 < actual && 0.0 <= lo <= hi <= 1.0
    ensures var (from, to) := PixelRange(offset, actual, lo, hi);
            offset <= from < to <= offset + actual
  {
    RoundMonotone(actual, lo, hi);
  }

  lemma WholeRange(actual: int)
    requires 0 < actual
    ensures PixelRange(0, actual, 0.0, 1.0) == (0, actual)
  {
    assert actual as real * 0.0 == 0.0 && actual as real * 1.0 == actual as real;
  }

  // Neighbouring LEDs that share an edge share no pixel and leave none out between them, unless
  // one of them is so thin that it needed the one-pixel minimum.
  lemma NeighboursMeet(offset: int, actual: int, a: real, b: real, c: real)
    requires 0 < actual && 0.0 <= a <= b <= c <= 1.0
    requires Round(actual as real * a) < Round(actual as real * b) < Round(actual as real * c)
    ensures PixelRange(offset, actual, a, b).1 == PixelRange(offset, actual, b, c).0
  {
    RoundMonotone(actual, a, b);
    RoundMonotone(actual, b, c);
  }

  // The pixel indices of one row, and of a rectangle of rows, in the order they are pushed.
  function Row(y: int, x0: int, x1: int, width: int): (r: seq<int>)
    decreases x1 - x0
    ensures |r| == Max(0, x1 - x0)
    ensures forall k :: 0 <= k < |r| ==> r[k] == Index(x0 + k, y, width)
  {
    if x1 <= x0 then [] else Row(y, x0, x1 - 1, width) + [Index(x1 - 1, y, width)]
  }

  function Rectangle(x0: int, x1: int, y0: int, y1: int, width: int): seq<int>
    decreases y1 - y0
  {
    if y1 <= y0 then [] else Rectangle(x0, x1, y0, y1 - 1, width) + Row(y1 - 1, x0, x1, width)
  }

  predicate Increasing(s: seq<int>) {
    forall i, j :: 0 <= i < j < |s| ==> s[i] < s[j]
  }

  ghost predicate InRectangle(idx: int, x0: int, x1: int, y0: int, y1: int, width: int) {
    exists x, y :: x0 <= x < x1 && y0 <= y < y1 && idx == Index(x, y, width)
  }

  lemma LaterRow(x: int, y: int, x': int, y': int, width: int)
    requires x < width && 0 <= x' && y < y'
    ensures 0 <= width ==> Index(x, y, width) < Index(x', y', width)
  {
    if 0 <= width {
      MulLe(y + 1, y', width);
      assert (y + 1) * width == y * width + width;
    }
  }

  lemma RowExact(x0: int, x1: int, y: int, width: int)
    ensures forall idx :: idx in Row(y, x0, x1, width) <==> InRectangle(idx, x0, x1, y, y + 1, width)
    ensures Increasing(Row(y, x0, x1, width))
  {
    var r := Row(y, x0, x1, width);
    forall idx
      ensures idx in r <==> InRectangle(idx, x0, x1, y, y + 1, width)
    {
      if InRectangle(idx, x0, x1, y, y + 1, width) {
        var x, y' :| x0 <= x < x1 && y <= y' < y + 1 && idx == Index(x, y', width);
        assert r[x - x0] == idx;
      }
    }
  }

  lemma ConcatIncreasing(a: seq<int>, b: seq<int>)
    requires Increasing(a) && Increasing(b)
    requires forall x, y :: x in a && y in b ==> x < y
    ensures Increasing(a + b)
  {
    forall i, j | 0 <= i < j < |a + b|
      ensures (a + b)[i] < (a + b)[j]
    {
      if i < |a| && |a| <= j {
        assert a[i] in a && b[j - |a|] in b;
      }
    }
  }

  // Main result: the list holds exactly the pixels of the rectangle, each once, in image order.
  lemma {:induction false} RectangleExact(x0: int, x1: int, y0: int, y1: int, width: int)
    requires 0 <= x0 && x1 <= width && 0 <= width
    ensures forall idx :: idx in Rectangle(x0, x1, y0, y1, width) <==> InRectangle(idx, x0, x1, y0, y1, width)
    ensures Increasing(Rectangle(x0, x1, y0, y1, width))
    decreases y1 - y0
  {
    hide Index;
    if y0 < y1 {
      var before, row := Rectangle(x0, x1, y0, y1 - 1, width), Row(y1 - 1, x0, x1, width);
      RectangleExact(x0, x1, y0, y1 - 1, width);
      RowExact(x0, x1, y1 - 1, width);
      assert forall idx :: idx in before + row <==> idx in before || idx in row;
      assert forall idx :: InRectangle(idx, x0, x1, y0, y1, width) <==>
               InRectangle(idx, x0, x1, y0, y1 - 1, width) || InRectangle(idx, x0, x1, y1 - 1, y1, width);
      forall a, b | a in before && b in row
        ensures a < b
      {
        assert InRectangle(a, x0, x1, y0, y1 - 1, width) && InRectangle(b, x0, x1, y1 - 1, y1 - 1 + 1, width);
        var x, y :| x0 <= x < x1 && y0 <= y < y1 - 1 && a == Index(x, y, width);
        var x', y' :| x0 <= x' < x1 && y1 - 1 <= y' < y1 && b == Index(x', y', width);
        LaterRow(x, y, x', y', width);
      }
      ConcatIncreasing(before, row);
    }
  }

  lemma {:induction false} FullRows(width: int, rows: nat)
    requires 0 < width
    ensures |Rectangle(0, width, 0, rows, width)| == rows * width
    ensures forall k :: 0 <= k < rows * width ==> Rectangle(0, width, 0, rows, width)[k] == k
  {
    if rows > 0 {
      FullRows(width, rows - 1);
      assert rows * width == (rows - 1) * width + width;
    }
  }

  // The pixels of one LED in an image whose border is left out.
  function LedPixels(width: nat, height: nat, horizontalBorder: nat, verticalBorder: nat, led: Led): seq<int> {
    if !HasArea(led) then []
    else
      var (x0, x1) := PixelRange(verticalBorder, width - 2 * verticalBorder, led.minX, led.maxX);
      var (y0, y1) := PixelRange(horizontalBorder, height - 2 * horizontalBorder, led.minY, led.maxY);
      Rectangle(x0, x1, y0, y1, width)
  }

  predicate BordersFit(width: nat, height: nat, horizontalBorder: nat, verticalBorder: nat) {
    width > 2 * verticalBorder && height > 2 * horizontalBorder
  }

  // Main result: a LED with area gets a non-empty, duplicate-free list inside the trimmed image.
  lemma LedPixelsInside(width: nat, height: nat, horizontalBorder: nat, verticalBorder: nat, led: Led)
    requires BordersFit(width, height, horizontalBorder, verticalBorder)
    requires Normalised(led) && HasArea(led)
    ensures var px := LedPixels(width, height, horizontalBorder, verticalBorder, led);
            && px != [] && Increasing(px)
            && forall i :: i in px ==>
                 InRectangle(i, verticalBorder, width - verticalBorder,
                             horizontalBorder, height - horizontalBorder, width)
  {
    hide Index, PixelRange, HasArea;
    var (x0, x1) := PixelRange(verticalBorder, width - 2 * verticalBorder, led.minX, led.maxX);
    var (y0, y1) := PixelRange(horizontalBorder, height - 2 * horizontalBorder, led.minY, led.maxY);
    RangeInside(verticalBorder, width - 2 * verticalBorder, led.minX, led.maxX);
    RangeInside(horizontalBorder, height - 2 * horizontalBorder, led.minY, led.maxY);
    RectangleExact(x0, x1, y0, y1, width);
    assert InRectangle(Index(x0, y0, width), x0, x1, y0, y1, width);
  }

  // The pixel at x, counted from the start of the image, belongs to the part of an axis between two
  // fractions: its centre lies in it; or no centre does, and it is the first one whose centre lies
  // past the lower end, or the last one of all.
  ghost predicate Covers(offset: int, actual: int, lo: real, hi: real, x: int) {
    var (from, to) := (actual as real * lo, actual as real * hi);
    && offset <= x < offset + actual
    && if exists k :: 0 <= k < actual && Centred(k, from, to) then Centred(x - offset, from, to)
       else (x == offset + actual - 1 || from < (x - offset) as real + 0.5)
            && (x == offset || (x - 1 - offset) as real + 0.5 <= from)
  }

  predicate Centred(k: int, from: real, to: real) {
    from < k as real + 0.5 <= to
  }

  lemma RoundsPast(k: int, x: real)
    ensures k < Round(x) <==> k as real + 0.5 <= x
  {
  }

  lemma RangeExact(offset: int, actual: int, lo: real, hi: real, x: int)
    requires 0 < actual && 0.0 <= lo <= hi <= 1.0
    ensures var (from, to) := PixelRange(offset, actual, lo, hi);
            from <= x < to <==> Covers(offset, actual, lo, hi, x)
  {
    hide Round;
    RoundMonotone(actual, lo, hi);
    var (from, to) := (actual as real * lo, actual as real * hi);
    forall k
      ensures Centred(k, from, to) <==> Round(from) <= k < Round(to)
    {
      RoundsPast(k, from);
      RoundsPast(k, to);
    }
    if Round(from) < Round(to) {
      assert Centred(Round(from), from, to);
    } else {
      RoundsPast(x - offset, from);
      RoundsPast(x - 1 - offset, from);
    }
  }

  lemma IndexUnique(x: int, y: int, x': int, y': int, width: int)
    requires 0 <= x < width && 0 <= x' < width && Index(x, y, width) == Index(x', y', width)
    ensures x == x' && y == y'
  {
    if y < y' { LaterRow(x, y, x', y', width); }
    if y' < y { LaterRow(x', y', x, y, width); }
  }

  // Main result: which pixels a LED gets, column by its horizontal fractions and row by its
  // vertical ones; a LED thinner than a millionth in one direction gets none.
  lemma LedPixelsExact(
    width: nat, height: nat, horizontalBorder: nat, verticalBorder: nat, led: Led, x: int, y: int)
    requires BordersFit(width, height, horizontalBorder, verticalBorder) && Normalised(led) && 0 <= x < width
    ensures Index(x, y, width) in LedPixels(width, height, horizontalBorder, verticalBorder, led) <==>
            && led.maxX - led.minX >= 0.000001 && led.maxY - led.minY >= 0.000001
            && Covers(verticalBorder, width - 2 * verticalBorder, led.minX, led.maxX, x)
            && Covers(horizontalBorder, height - 2 * horizontalBorder, led.minY, led.maxY, y)
  {
    hide Index, PixelRange, Covers;
    var (x0, x1) := PixelRange(verticalBorder, width - 2 * verticalBorder, led.minX, led.maxX);
    var (y0, y1) := PixelRange(horizontalBorder, height - 2 * horizontalBorder, led.minY, led.maxY);
    RangeExact(verticalBorder, width - 2 * verticalBorder, led.minX, led.maxX, x);
    RangeExact(horizontalBorder, height - 2 * horizontalBorder, led.minY, led.maxY, y);
    RangeInside(verticalBorder, width - 2 * verticalBorder, led.minX, led.maxX);
    RectangleExact(x0, x1, y0, y1, width);
    if InRectangle(Index(x, y, width), x0, x1, y0, y1, width) {
      var x', y' :| x0 <= x' < x1 && y0 <= y' < y1 && Index(x, y, width) == Index(x', y', width);
      IndexUnique(x, y, x', y', width);
    }
  }

  lemma RectangleInImage(i: int, x0: int, x1: int, y0: int, y1: int, width: nat, height: nat)
    requires InRectangle(i, x0, x1, y0, y1, width)
    requires 0 <= x0 && x1 <= width && 0 <= y0 && y1 <= height
    ensures 0 <= i < width * height
  {
    var x, y :| x0 <= x < x1 && y0 <= y < y1 && i == Index(x, y, width);
    InImage(x, y, width, height);
  }

  // A LED over the whole image without border lists every pixel in order.
  lemma WholeImage(width: nat, height: nat, led: Led)
    requires 0 < width && 0 < height
    requires led.minX == 0.0 && led.maxX == 1.0 && led.minY == 0.0 && led.maxY == 1.0
    ensures LedPixels(width, height, 0, 0, led) == seq(width * height, k => k)
  {
    WholeRange(width);
    WholeRange(height);
    FullRows(width, height);
  }

  // ---------------------------------------------------------------- mean colours

  predicate InRange(px: seq<int>, pixels: seq<ColorRgb>) {
    forall k :: 0 <= k < |px| ==> 0 <= px[k] < |pixels|
  }

  predicate ValuesWithin(pixels: seq<ColorRgb>, px: seq<int>, ch: Channel, lo: int, hi: int)
    requires InRange(px, pixels)
  {
    forall k :: 0 <= k < |px| ==> lo <= Get(pixels[px[k]], ch) <= hi
  }

  function Sum(pixels: seq<ColorRgb>, px: seq<int>, ch: Channel): nat
    requires InRange(px, pixels)
  {
    if px == [] then 0
    else Sum(pixels, px[..|px| - 1], ch) + Get(pixels[px[|px| - 1]], ch)
  }

  // The sum lies between the count times the smallest and times the largest channel value.
  lemma {:induction false} SumBetween(pixels: seq<ColorRgb>, px: seq<int>, ch: Channel, lo: int, hi: int)
    requires InRange(px, pixels) && ValuesWithin(pixels, px, ch, lo, hi)
    ensures lo * |px| <= Sum(pixels, px, ch) <= hi * |px|
  {
    if px != [] {
      var n := |px| - 1;
      SumBetween(pixels, px[..n], ch, lo, hi);
      assert lo * (n + 1) == lo * n + lo && hi * (n + 1) == hi * n + hi;
    }
  }

  // What a byte keeps of the integer quotient.
  function Average(sum: nat, count: nat): Byte
    requires count > 0
  {
    (sum / count) % 256
  }

  function Mean(pixels: seq<ColorRgb>, px: seq<int>): ColorRgb
    requires InRange(px, pixels)
  {
    if px == [] then BLACK
    else ColorRgb(Average(Sum(pixels, px, Red), |px|), Average(Sum(pixels, px, Green), |px|),
                  Average(Sum(pixels, px, Blue), |px|))
  }

  lemma LedPixelsInRange(
    width: nat, height: nat, horizontalBorder: nat, verticalBorder: nat, led: Led, pixels: seq<ColorRgb>)
    requires BordersFit(width, height, horizontalBorder, verticalBorder) && Normalised(led)
    requires |pixels| == width * height
    ensures InRange(LedPixels(width, height, horizontalBorder, verticalBorder, led), pixels)
  {
    hide PixelRange, InRectangle, Increasing;
    var px := LedPixels(width, height, horizontalBorder, verticalBorder, led);
    if HasArea(led) {
      LedPixelsInside(width, height, horizontalBorder, verticalBorder, led);
      forall k | 0 <= k < |px|
        ensures 0 <= px[k] < |pixels|
      {
        assert px[k] in px;
        RectangleInImage(px[k], verticalBorder, width - verticalBorder,
                         horizontalBorder, height - horizontalBorder, width, height);
      }
    }
  }

  // Main result: each channel of the mean is the floor of the true average, no byte wraps, and
  // it lies between the smallest and the largest value over the LED's pixels.
  lemma MeanIsFloor(pixels: seq<ColorRgb>, px: seq<int>, ch: Channel, lo: int, hi: int)
    requires InRange(px, pixels) && px != []
    requires ValuesWithin(pixels, px, ch, lo, hi)
    ensures var m := Get(Mean(pixels, px), ch);
            && m * |px| <= Sum(pixels, px, ch) < (m + 1) * |px|
            && lo <= m <= hi
  {
    SumBetween(pixels, px, ch, 0, 255);
    SumBetween(pixels, px, ch, lo, hi);
    AverageExact(Sum(pixels, px, ch), |px|, lo, hi);
  }

  lemma AverageExact(sum: nat, n: nat, lo: int, hi: int)
    requires 0 < n && sum <= 255 * n && lo * n <= sum <= hi * n
    ensures Average(sum, n) * n <= sum < (Average(sum, n) + 1) * n && lo <= Average(sum, n) <= hi
  {
    var q := sum / n;
    assert sum == q * n + sum % n;
    assert (q + 1) * n == q * n + n;
    DivideLt(lo, q + 1, n);
    DivideLe(q, hi, n);
    DivideLe(q, 255, n);
    DivideLt(-1, q, n);
  }

  // A LED without area stays black.
  lemma NoAreaIsBlack(
    width: nat, height: nat, horizontalBorder: nat, verticalBorder: nat, led: Led, pixels: seq<ColorRgb>)
    requires led.maxX - led.minX < 0.000001 || led.maxY - led.minY < 0.000001
    ensures var px := LedPixels(width, height, horizontalBorder, verticalBorder, led);
            InRange(px, pixels) && Mean(pixels, px) == ColorRgb(0, 0, 0)
  {
  }

  // Main result: the multicolour mean of a LED over the whole image is the unicolour mean.
  lemma WholeMeanIsUnicolour(im: Image, led: Led)
    requires im.Valid() && im.width > 0 && im.height > 0
    requires led.minX == 0.0 && led.maxX == 1.0 && led.minY == 0.0 && led.maxY == 1.0
    ensures var px := LedPixels(im.width, im.height, 0, 0, led);
            InRange(px, im.pixels) && Mean(im.pixels, px) == UniMean(im.pixels)
  {
    WholeImage(im.width, im.height, led);
    assert im.width * im.height > 0 by { InImage(0, 0, im.width, im.height); }
    SumAllIsSum(im.pixels, Red);
    SumAllIsSum(im.pixels, Green);
    SumAllIsSum(im.pixels, Blue);
  }

  function SumAll(pixels: seq<ColorRgb>, ch: Channel): nat {
    if pixels == [] then 0
    else SumAll(pixels[..|pixels| - 1], ch) + Get(pixels[|pixels| - 1], ch)
  }

  function UniMean(pixels: seq<ColorRgb>): ColorRgb
    requires pixels != []
  {
    ColorRgb(Average(SumAll(pixels, Red), |pixels|), Average(SumAll(pixels, Green), |pixels|),
             Average(SumAll(pixels, Blue), |pixels|))
  }

  lemma {:induction false} SumPrefix(pixels: seq<ColorRgb>, n: nat, ch: Channel)
    requires n <= |pixels|
    ensures Sum(pixels, seq(n, k => k), ch) == SumAll(pixels[..n], ch)
  {
    if n > 0 {
      SumPrefix(pixels, n - 1, ch);
      assert seq(n, k => k)[..n - 1] == seq(n - 1, k => k);
      assert pixels[..n][..n - 1] == pixels[..n - 1];
    }
  }

  lemma SumAllIsSum(pixels: seq<ColorRgb>, ch: Channel)
    ensures Sum(pixels, seq(|pixels|, k => k), ch) == SumAll(pixels, ch)
  {
    SumPrefix(pixels, |pixels|, ch);
    assert pixels[..|pixels|] == pixels;
  }
}

module LedsMap {
  import opened Colors
  import opened Images
  import opened Leds
  import opened Arithmetic
  import opened LedsMapSpec

  class ImageToLedsMap {
    const width: nat
    const height: nat
    const horizontalBorder: nat
    const verticalBorder: nat
    const colorsMap: seq<seq<int>>

    constructor (width: nat, height: nat, horizontalBorder: nat, verticalBorder: nat, leds: seq<Led>)
      requires BordersFit(width, height, horizontalBorder, verticalBorder)
      requires width < 10000 && height < 10000
      requires forall led :: led in leds ==> Normalised(led)
      ensures this.width == width && this.height == height
      ensures this.horizontalBorder == horizontalBorder && this.verticalBorder == verticalBorder
      ensures MapsLeds(leds)
    {
      var all: seq<seq<int>> := [];
      for n := 0 to |leds|
        invariant |all| == n
        invariant forall k :: 0 <= k < n ==>
                    all[k] == LedPixels(width, height, horizontalBorder, verticalBorder, leds[k])
      {
        var px := CollectPixels(width, height, horizontalBorder, verticalBorder, leds[n]);
        all := all + [px];
      }
      this.width, this.height := width, height;
      this.horizontalBorder, this.verticalBorder := horizontalBorder, verticalBorder;
      colorsMap := all;
    }

    // The map of these LEDs for the sizes it was built with.
    ghost predicate MapsLeds(leds: seq<Led>) {
      && |colorsMap| == |leds|
      && BordersFit(width, height, horizontalBorder, verticalBorder)
      && (forall k :: 0 <= k < |leds| ==>
            Normalised(leds[k]) && colorsMap[k] == LedPixels(width, height, horizontalBorder, verticalBorder, leds[k]))
    }

    lemma MapInRange(leds: seq<Led>, pixels: seq<ColorRgb>, k: nat)
      requires MapsLeds(leds) && |pixels| == width * height && k < |leds|
      ensures InRange(colorsMap[k], pixels)
    {
      LedPixelsInRange(width, height, horizontalBorder, verticalBorder, leds[k], pixels);
    }

    // The body of the constructor's loop for one LED.
    static method CollectPixels(width: nat, height: nat, horizontalBorder: nat, verticalBorder: nat, led: Led)
      returns (px: seq<int>)
      requires BordersFit(width, height, horizontalBorder, verticalBorder) && Normalised(led)
      ensures px == LedPixels(width, height, horizontalBorder, verticalBorder, led)
    {
      if led.maxX - led.minX < SMALLEST_AREA || led.maxY - led.minY < SMALLEST_AREA {
        return [];
      }
      var minX, endX := Bounds(verticalBorder, width - 2 * verticalBorder, led.minX, led.maxX);
      var minY, endY := Bounds(horizontalBorder, height - 2 * horizontalBorder, led.minY, led.maxY);
      px := FillRectangle(minX, endX, minY, endY, width);
    }

    // The index boundaries along one axis: offset, number of pixels and fractions of that axis.
    static method Bounds(offset: nat, actual: nat, lo: real, hi: real) returns (minIdx: int, endIdx: int)
      requires 0 < actual && 0.0 <= lo <= hi <= 1.0
      ensures (minIdx, endIdx) == PixelRange(offset, actual, lo, hi)
      ensures offset <= minIdx < endIdx <= offset + actual
    {
      hide Round;
      minIdx := offset + Round(actual as real * lo);
      var maxIdx := offset + Round(actual as real * hi);
      minIdx := Min(minIdx, offset + actual - 1);
      if minIdx == maxIdx {
        maxIdx := maxIdx + 1;
      }
      endIdx := Min(maxIdx, offset + actual);
      RangeInside(offset, actual, lo, hi);
    }

    static method FillRectangle(minX: int, endX: int, minY: int, endY: int, width: nat) returns (px: seq<int>)
      requires minX <= endX && minY <= endY
      ensures px == Rectangle(minX, endX, minY, endY, width)
    {
      px := [];
      var y := minY;
      while y < endY
        invariant minY <= y <= endY
        invariant px == Rectangle(minX, endX, minY, y, width)
      {
        ghost var before := px;
        var x := minX;
        while x < endX
          invariant minX <= x <= endX
          invariant px == before + Row(y, minX, x, width)
        {
          px := px + [Index(x, y, width)];
          x := x + 1;
        }
        y := y + 1;
      }
    }

    // Writes one mean colour per LED, unless the output has another number of LEDs.
    method GetMeanLedColor(image: Image, ledColors: array<ColorRgb>, ghost leds: seq<Led>)
      requires MapsLeds(leds) && image.Valid() && image.width == width && image.height == height
      modifies ledColors
      ensures ledColors.Length != |leds| ==> ledColors[..] == old(ledColors[..])
      ensures ledColors.Length == |leds| ==>
                forall k :: 0 <= k < |leds| ==>
                  InRange(colorsMap[k], image.pixels) && ledColors[k] == Mean(image.pixels, colorsMap[k])
    {
      if |colorsMap| != ledColors.Length {
        return;
      }
      var i := 0;
      while i < |colorsMap|
        invariant 0 <= i <= |colorsMap|
        invariant forall k :: 0 <= k < i ==>
                    InRange(colorsMap[k], image.pixels) && ledColors[k] == Mean(image.pixels, colorsMap[k])
      {
        MapInRange(leds, image.pixels, i);
        var color := CalcMeanColor(image, colorsMap[i]);
        ledColors[i] := color;
        i := i + 1;
      }
    }

    method GetUniLedColor(image: Image, ledColors: array<ColorRgb>)
      requires image.Valid() && image.pixels != []
      modifies ledColors
      ensures ledColors.Length != |colorsMap| ==> ledColors[..] == old(ledColors[..])
      ensures ledColors.Length == |colorsMap| ==>
                forall k :: 0 <= k < ledColors.Length ==> ledColors[k] == UniMean(image.pixels)
    {
      if |colorsMap| != ledColors.Length {
        return;
      }
      var color := CalcImageMean(image);
      var i := 0;
      while i < ledColors.Length
        invariant 0 <= i <= ledColors.Length
        invariant forall k :: 0 <= k < i ==> ledColors[k] == color
      {
        ledColors[i] := color;
        i := i + 1;
      }
    }

    static method CalcMeanColor(image: Image, colors: seq<int>) returns (mean: ColorRgb)
      requires InRange(colors, image.pixels)
      ensures mean == Mean(image.pixels, colors)
    {
      if |colors| == 0 {
        return BLACK;
      }
      var red, green, blue := 0, 0, 0;
      var i := 0;
      while i < |colors|
        invariant 0 <= i <= |colors|
        invariant red == Sum(image.pixels, colors[..i], Red)
        invariant green == Sum(image.pixels, colors[..i], Green)
        invariant blue == Sum(image.pixels, colors[..i], Blue)
      {
        var pixel := image.pixels[colors[i]];
        assert colors[..i + 1][..i] == colors[..i];
        red, green, blue := red + pixel.red, green + pixel.green, blue + pixel.blue;
        i := i + 1;
      }
      assert colors[..i] == colors;
      mean := ColorRgb(red / |colors| % 256, green / |colors| % 256, blue / |colors| % 256);
    }

    static method CalcImageMean(image: Image) returns (mean: ColorRgb)
      requires image.Valid() && image.pixels != []
      ensures mean == UniMean(image.pixels)
    {
      var red, green, blue := 0, 0, 0;
      var size := image.width * image.height;
      var i := 0;
      while i < size
        invariant 0 <= i <= size
        invariant red == SumAll(image.pixels[..i], Red)
        invariant green == SumAll(image.pixels[..i], Green)
        invariant blue == SumAll(image.pixels[..i], Blue)
      {
        var pixel := image.pixels[i];
        assert image.pixels[..i + 1][..i] == image.pixels[..i];
        red, green, blue := red + pixel.red, green + pixel.green, blue + pixel.blue;
        i := i + 1;
      }
      assert image.pixels[..i] == image.pixels;
      mean := ColorRgb(red / size % 256, green / size % 256, blue / size % 256);
    }
  }
}

// The border the LED map in use was built with, beside what the border detection tracks.
module BorderMapping {
  import opened Arithmetic
  import opened Colors
  import opened Images
  import opened Leds
  import opened LedsMapSpec
  import opened BorderHysteresis
  import opened BorderDetection

  datatype Mapped = Mapped(state: State, horizontal: int, vertical: int)

  // What a border cuts off at the top and bottom, and at the left and right.
  function Trim(b: BlackBorder): (int, int) {
    if b.unknown then (0, 0) else (b.horizontalSize, b.verticalSize)
  }

  // The map in use cuts off the current border.
  predicate InSync(m: Mapped) {
    (m.horizontal, m.vertical) == Trim(m.state.current)
  }

  // One image, and whether it has another size than the one before.
  datatype Frame = Frame(input: Input, resized: bool)

  function Show(p: Settings, m: Mapped, f: Frame): Mapped {
    var m0 := if f.resized then m.(horizontal := 0, vertical := 0) else m;
    match f.input
    case Disabled =>
      if m0.horizontal != 0 || m0.vertical != 0 then Mapped(Step(p, m0.state, Disabled), 0, 0) else m0
    case Detected(b) =>
      var r := Update(p, m0.state, b);
      if r.changed then Mapped(r.state, Trim(r.state.current).0, Trim(r.state.current).1) else m0.(state := r.state)
  }

  function ShowAll(p: Settings, m: Mapped, frames: seq<Frame>): Mapped
    decreases |frames|
  {
    if frames == [] then m else ShowAll(p, Show(p, m, frames[0]), frames[1..])
  }

  // Main result, stated exactly for one image: the map follows the current border unless the size
  // of the image changes while a border is current and the image does not change the border.
  lemma StaysInSyncIff(p: Settings, m: Mapped, f: Frame)
    requires InSync(m)
    ensures InSync(Show(p, m, f)) <==>
            || !f.resized || Trim(m.state.current) == (0, 0)
            || (f.input.Detected? && Update(p, m.state, f.input.border).changed)
  {
  }

  // Over any run at one image size, detection switched on and off in between, the map in use
  // cuts off the current border, and the border can still change as SettlesExactly asks.
  lemma {:induction false} RunInSync(p: Settings, m: Mapped, frames: seq<Frame>)
    requires InSync(m) && CanSwitch(p, m.state) && forall f :: f in frames ==> !f.resized
    ensures InSync(ShowAll(p, m, frames)) && CanSwitch(p, ShowAll(p, m, frames).state)
    decreases |frames|
  {
    if frames != [] {
      assert frames[0] in frames;
      StaysInSyncIff(p, m, frames[0]);
      RunInSync(p, Show(p, m, frames[0]), frames[1..]);
    }
  }

  function Steady(b: BlackBorder, n: nat): seq<Frame> {
    seq(n, _ => Frame(Detected(b), false))
  }

  lemma {:induction false} SteadyStep(p: Settings, m: Mapped, b: BlackBorder, n: nat)
    ensures ShowAll(p, m, Steady(b, n)).state == Feed(p, m.state, b, n)
    ensures Same(m.state.current, b) ==> InSync(ShowAll(p, m, Steady(b, n))) == InSync(m)
    ensures !Same(m.state.current, b) && Same(Feed(p, m.state, b, n).current, b) ==>
              InSync(ShowAll(p, m, Steady(b, n)))
    decreases n
  {
    if n > 0 {
      assert Steady(b, n)[1..] == Steady(b, n - 1);
      SteadyStep(p, Show(p, m, Frame(Detected(b), false)), b, n - 1);
    }
  }

  // Main result: when images of another size start to show border b, the map cuts off b after the
  // frames the hysteresis needs if and only if b was not the current border before or cuts off
  // nothing. Otherwise the map stays untrimmed however long b is shown.
  lemma ResizeRecoversIff(p: Settings, m: Mapped, b: BlackBorder, n: nat)
    requires CanSwitch(p, m.state) && n >= p.maxInconsistentCnt + 1 + SwitchCnt(p, b)
    ensures var m' := ShowAll(p, Show(p, m, Frame(Detected(b), true)), Steady(b, n));
            && Same(m'.state.current, b)
            && (InSync(m') <==> !Same(m.state.current, b) || Trim(b) == (0, 0))
  {
    var first := Show(p, m, Frame(Detected(b), true));
    SettlesExactly(p, m.state, b, n + 1);
    assert Feed(p, m.state, b, n + 1) == Feed(p, first.state, b, n);
    SteadyStep(p, first, b, n);
  }

  // The failing case is reachable from the start: a border of ten rows is found at once, the
  // size changes, and from then on the map cuts off nothing.
  lemma ResizeLosesBorder(n: nat)
    ensures var p, b := Settings(600, 50, 10), BlackBorder(false, 10, 0);
            var before := Show(p, Mapped(START, 0, 0), Frame(Detected(b), true));
            var m' := ShowAll(p, Show(p, before, Frame(Detected(b), true)), Steady(b, n));
            && InSync(before) && before.state.current == b && before.horizontal == 10
            && Same(m'.state.current, b) && !InSync(m')
  {
    var p, b := Settings(600, 50, 10), BlackBorder(false, 10, 0);
    var before := Show(p, Mapped(START, 0, 0), Frame(Detected(b), true));
    SettlesExactly(p, before.state, b, n + 1);
    SteadyStep(p, Show(p, before, Frame(Detected(b), true)), b, n);
  }

  // ---------------------------------------------------------------- pictures between black bars

  lemma BarsSwitch(p: Settings, m: Mapped, b: BlackBorder, n: nat)
    requires InSync(m) && CanSwitch(p, m.state) && !b.unknown
    requires n >= p.maxInconsistentCnt + 1 + p.borderSwitchCnt
    ensures var m' := ShowAll(p, m, Steady(b, n));
            m'.horizontal == b.horizontalSize && m'.vertical == b.verticalSize
  {
    SettlesExactly(p, m.state, b, n);
    SteadyStep(p, m, b, n);
  }

  // Main result, what border detection is for: when images of a picture between black bars, none
  // as wide as a third of the image, are shown long enough, the LEDs read exactly the picture
  // without its bars and, where there is a bar, without a blurred line next to it: all of their
  // pixels are lit.
  lemma LedsSeeNoBars(p: Settings, m: Mapped, n: nat, mode: Mode, im: Image, t: Byte, h: nat, v: nat, blur: nat,
                      seen: BlackBorder, led: Led)
    requires InSync(m) && CanSwitch(p, m.state) && n >= p.maxInconsistentCnt + 1 + p.borderSwitchCnt
    requires Usable(im) && Barred(im, t, Bars(h, h, v, v)) && Thin(im, Bars(h, h, v, v))
    requires Detects(mode, im, t, seen) && blur <= SafeBlur(mode) && Normalised(led) && HasArea(led)
    ensures var m' := ShowAll(p, m, Steady(AddBlur(seen, blur), n));
            && m'.horizontal == (if h == 0 then 0 else h + blur) && m'.vertical == (if v == 0 then 0 else v + blur)
            && BordersFit(im.width, im.height, m'.horizontal, m'.vertical)
            && var px := LedPixels(im.width, im.height, m'.horizontal, m'.vertical, led);
               px != [] && forall i :: i in px ==> 0 <= i < |im.pixels| && Bright(im.pixels[i], t)
  {
    hide Detects, Index, LedPixels, Bright, InSync, CanSwitch, Steady, ShowAll;
    BarsFound(mode, im, t, Bars(h, h, v, v), seen);
    KnownBorderFits(mode, im, t, seen, blur);
    var b := AddBlur(seen, blur);
    BarsSwitch(p, m, b, n);
    LedPixelsInside(im.width, im.height, b.horizontalSize, b.verticalSize, led);
    forall i | i in LedPixels(im.width, im.height, b.horizontalSize, b.verticalSize, led)
      ensures 0 <= i < |im.pixels| && Bright(im.pixels[i], t)
    {
      var x, y :| && b.verticalSize <= x < im.width - b.verticalSize
                  && b.horizontalSize <= y < im.height - b.horizontalSize && i == Index(x, y, im.width);
      InImage(x, y, im.width, im.height);
      assert im.At(x, y) == im.pixels[i];
    }
  }
}

module ImageProcessing {
  import opened Colors
  import opened Images
  import opened Leds
  import opened BorderHysteresis
  import opened BorderDetection
  import opened BorderProcessor
  import opened BorderMapping
  import opened LedsMapSpec
  import opened LedsMap

  // The names of the settings for the two mappings.
  function MappingTypeToInt(mappingType: string): int {
    if mappingType == "unicolor_mean" then 1 else 0
  }

  function MappingTypeToStr(mappingType: int): string {
    if mappingType == 1 then "unicolor_mean" else "multicolor_mean"
  }

  lemma MappingTypeRoundTrip(mappingType: string)
    requires mappingType == "unicolor_mean" || mappingType == "multicolor_mean"
    ensures MappingTypeToStr(MappingTypeToInt(mappingType)) == mappingType
  {
  }

  class ImageProcessor {
    const leds: seq<Led>
    const borderProcessor: BlackBorderProcessor
    var imageToLeds: ImageToLedsMap?
    var mappingType: int

    // Settings under which every detected border fits its image, see FitsIffBlurIsSafe.
    ghost predicate Valid()
      reads this, borderProcessor
    {
      && borderProcessor.blurRemoveCnt <= SafeBlur(borderProcessor.detectionMode)
      && (forall led :: led in leds ==> Normalised(led))
      && (imageToLeds != null ==> imageToLeds.MapsLeds(leds))
    }

    ghost predicate MapFor(image: Image)
      reads this
    {
      && imageToLeds != null && imageToLeds.MapsLeds(leds)
      && imageToLeds.width == image.width && imageToLeds.height == image.height
    }

    // What is tracked and what the map in use cuts off.
    ghost function InUse(): Mapped
      reads this, borderProcessor
    {
      if imageToLeds == null then Mapped(borderProcessor.Tracked(), 0, 0)
      else Mapped(borderProcessor.Tracked(), imageToLeds.horizontalBorder, imageToLeds.verticalBorder)
    }

    // One image moved the tracked border and the map on as the runs of BorderMapping say.
    ghost predicate Shown(image: Image, before: Mapped, resized: bool)
      requires Usable(image)
      reads this, borderProcessor
    {
      var p := borderProcessor.Counting();
      if borderProcessor.enabled then
        exists b :: && Detects(borderProcessor.detectionMode, image, borderProcessor.threshold, b)
                    && var seen := Detected(AddBlur(b, borderProcessor.blurRemoveCnt));
                       InUse() == Show(p, before, Frame(seen, resized))
      else InUse() == Show(p, before, Frame(Disabled, resized))
    }

    constructor (leds: seq<Led>, borderProcessor: BlackBorderProcessor, mappingType: int)
      requires forall led :: led in leds ==> Normalised(led)
      requires borderProcessor.blurRemoveCnt <= SafeBlur(borderProcessor.detectionMode)
      ensures Valid() && this.leds == leds && this.borderProcessor == borderProcessor
      ensures imageToLeds == null && this.mappingType == mappingType
    {
      this.leds, this.borderProcessor := leds, borderProcessor;
      this.imageToLeds, this.mappingType := null, mappingType;
    }

    // The map in use does not fit the image.
    ghost predicate OtherSize(image: Image)
      reads this
    {
      imageToLeds == null || imageToLeds.width != image.width || imageToLeds.height != image.height
    }

    method SetSize(width: nat, height: nat)
      requires Valid() && 0 < width < 10000 && 0 < height < 10000
      modifies `imageToLeds
      ensures Valid() && imageToLeds != null && imageToLeds.width == width && imageToLeds.height == height
      ensures old(imageToLeds) != null && old(imageToLeds).width == width && old(imageToLeds).height == height
              ==> imageToLeds == old(imageToLeds)
      ensures imageToLeds == old(imageToLeds) || (imageToLeds.horizontalBorder == 0 && imageToLeds.verticalBorder == 0)
    {
      if imageToLeds != null && imageToLeds.width == width && imageToLeds.height == height {
        return;
      }
      imageToLeds := new ImageToLedsMap(width, height, 0, 0, leds);
    }

    // Rebuilds the map from the border; the constructor's size demands hold for every image.
    method VerifyBorder(image: Image)
      requires Valid() && Usable(image) && image.width < 10000 && image.height < 10000 && MapFor(image)
      modifies `imageToLeds, borderProcessor`currentBorder, borderProcessor`previousDetectedBorder,
               borderProcessor`consistentCnt, borderProcessor`inconsistentCnt
      ensures Valid() && MapFor(image)
      ensures Shown(image, old(InUse()), false) && (old(InSync(InUse())) ==> InSync(InUse()))
      ensures !borderProcessor.enabled ==> imageToLeds.horizontalBorder == 0 && imageToLeds.verticalBorder == 0
    {
      hide Detects, Normalised, LedPixels;
      if !borderProcessor.enabled && (imageToLeds.horizontalBorder != 0 || imageToLeds.verticalBorder != 0) {
        var _ := borderProcessor.Process(image);
        imageToLeds := new ImageToLedsMap(image.width, image.height, 0, 0, leds);
      }
      if borderProcessor.enabled {
        var changed := borderProcessor.Process(image);
        if changed {
          var border := borderProcessor.currentBorder;
          if border.unknown {
            imageToLeds := new ImageToLedsMap(image.width, image.height, 0, 0, leds);
          } else {
            imageToLeds := new ImageToLedsMap(image.width, image.height,
                                              border.horizontalSize, border.verticalSize, leds);
          }
        }
      }
    }

    // What the LED colours of an image are, for the map in use.
    ghost predicate Coloured(image: Image, colors: seq<ColorRgb>)
      reads this
    {
      && MapFor(image) && image.pixels != [] && |colors| == |leds|
      && forall k :: 0 <= k < |leds| ==>
           if MappingTypeToStr(mappingType) == "unicolor_mean" then colors[k] == UniMean(image.pixels)
           else InRange(imageToLeds.colorsMap[k], image.pixels)
                && colors[k] == Mean(image.pixels, imageToLeds.colorsMap[k])
    }

    method Process(image: Image, ledColors: array<ColorRgb>)
      requires Valid() && image.Valid() && image.width < 10000 && image.height < 10000
      modifies `imageToLeds, ledColors, borderProcessor`currentBorder, borderProcessor`previousDetectedBorder,
               borderProcessor`consistentCnt, borderProcessor`inconsistentCnt
      ensures Valid()
      ensures !Usable(image) || ledColors.Length != |leds| ==> ledColors[..] == old(ledColors[..])
      ensures Usable(image) && ledColors.Length == |leds| ==> Coloured(image, ledColors[..])
      ensures Usable(image) ==> Shown(image, old(InUse()), old(OtherSize(image)))
      ensures old(InSync(InUse())) && !old(OtherSize(image)) ==> InSync(InUse())
    {
      hide Detects, Update, Mean, UniMean;
      if image.width > 0 && image.height > 0 {
        InImage(0, 0, image.width, image.height);
        SetSize(image.width, image.height);
        VerifyBorder(image);
        if mappingType == 1 {
          imageToLeds.GetUniLedColor(image, ledColors);
        } else {
          imageToLeds.GetMeanLedColor(image, ledColors, leds);
        }
      }
    }
  }
}
