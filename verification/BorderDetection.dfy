// include/blackborder/BlackBorderDetector.h: where the picture starts in a single image, and
// include/blackborder/BlackBorderProcessor.h: the processor around the detector.

module BorderDetection {
  import opened Colors
  import opened Images
  import opened Arithmetic
  import opened BorderHysteresis

  datatype Mode = Default | Classic | Osd

  predicate Lit(c: ColorRgb, threshold: Byte) {
    !(c.red < threshold && c.green < threshold && c.blue < threshold)
  }

  // An image that has pixels.
  predicate Usable(im: Image) {
    im.Valid() && im.width > 0 && im.height > 0
  }

  predicate ColumnLit(im: Image, t: Byte, x: int)
    requires Usable(im) && 0 <= x < im.width
  {
    || Lit(im.At(im.width - 1 - x, im.height / 2), t)
    || Lit(im.At(x, im.height / 3), t)
    || Lit(im.At(x, im.height / 3 * 2), t)
  }

  predicate RowLit(im: Image, t: Byte, y: int)
    requires Usable(im) && 0 <= y < im.height
  {
    || Lit(im.At(im.width / 2, im.height - 1 - y), t)
    || Lit(im.At(im.width / 3, y), t)
    || Lit(im.At(im.width / 3 * 2, y), t)
  }

  predicate RowLitAt(im: Image, t: Byte, x: int, y: int)
    requires Usable(im) && 0 <= x < im.width && 0 <= y < im.height
  {
    || Lit(im.At(x, y), t)
    || Lit(im.At(x, im.height - 1 - y), t)
    || Lit(im.At(im.width - 1 - x, y), t)
    || Lit(im.At(im.width - 1 - x, im.height - 1 - y), t)
  }

  // r is the first lit column of the left third, or -1.
  ghost predicate FirstColumn(im: Image, t: Byte, r: int)
    requires Usable(im)
  {
    && (r == -1 || 0 <= r < im.width / 3)
    && (r >= 0 ==> ColumnLit(im, t, r))
    && forall k :: 0 <= k < (if r < 0 then im.width / 3 else r) ==> !ColumnLit(im, t, k)
  }

  ghost predicate FirstRow(im: Image, t: Byte, r: int)
    requires Usable(im)
  {
    && (r == -1 || 0 <= r < im.height / 3)
    && (r >= 0 ==> RowLit(im, t, r))
    && forall k :: 0 <= k < (if r < 0 then im.height / 3 else r) ==> !RowLit(im, t, k)
  }

  ghost predicate FirstRowAt(im: Image, t: Byte, x: int, r: int)
    requires Usable(im) && 0 <= x < im.width
  {
    && (r == -1 || 0 <= r < im.height / 3)
    && (r >= 0 ==> RowLitAt(im, t, x, r))
    && forall k :: 0 <= k < (if r < 0 then im.height / 3 else r) ==> !RowLitAt(im, t, x, k)
  }

  // The i-th point of the classic search: down the diagonal, then along the shorter side's limit.
  predicate DiagonalLit(im: Image, t: Byte, i: int)
    requires Usable(im) && 0 <= i
  {
    Lit(im.At(Min(i, im.width / 3), Min(i, im.height / 3)), t)
  }

  ghost predicate FirstDiagonal(im: Image, t: Byte, i: int)
    requires Usable(im)
  {
    var n := Max(im.width / 3, im.height / 3);
    && (i == -1 || 0 <= i < n)
    && (i >= 0 ==> DiagonalLit(im, t, i))
    && forall k :: 0 <= k < (if i < 0 then n else i) ==> !DiagonalLit(im, t, k)
  }

  // Walking from x0 to the left stops at x: everything passed is lit, the next pixel is not.
  ghost predicate LeftEnd(im: Image, t: Byte, x0: int, y: int, x: int)
    requires Usable(im) && x0 < im.width && 0 <= y < im.height
  {
    && 0 <= x <= x0
    && (forall k :: x <= k < x0 ==> Lit(im.At(k, y), t))
    && (x > 0 ==> !Lit(im.At(x - 1, y), t))
  }

  ghost predicate TopEnd(im: Image, t: Byte, x: int, y0: int, y: int)
    requires Usable(im) && 0 <= x < im.width && y0 < im.height
  {
    && 0 <= y <= y0
    && (forall k :: y <= k < y0 ==> Lit(im.At(x, k), t))
    && (y > 0 ==> !Lit(im.At(x, y - 1), t))
  }

  ghost predicate ClassicCorner(im: Image, t: Byte, b: BlackBorder, i: int)
    requires Usable(im)
  {
    && FirstDiagonal(im, t, i)
    && b.unknown == (i == -1)
    && (i == -1 ==> b.horizontalSize == b.verticalSize == -1)
    && (i >= 0 ==>
          var x0, y0 := Min(i, im.width / 3), Min(i, im.height / 3);
          && LeftEnd(im, t, x0, y0, b.verticalSize)
          && TopEnd(im, t, b.verticalSize, y0, b.horizontalSize))
  }

  // b is the border each mode finds in the image.
  ghost predicate Detects(mode: Mode, im: Image, t: Byte, b: BlackBorder)
    requires Usable(im)
  {
    match mode
    case Default =>
      && FirstColumn(im, t, b.verticalSize) && FirstRow(im, t, b.horizontalSize)
      && b.unknown == (b.verticalSize == -1 || b.horizontalSize == -1)
    case Osd =>
      && FirstColumn(im, t, b.verticalSize)
      && FirstRowAt(im, t, if b.verticalSize == -1 then im.width / 3 else b.verticalSize, b.horizontalSize)
      && b.unknown == (b.verticalSize == -1 || b.horizontalSize == -1)
    case Classic => exists i :: ClassicCorner(im, t, b, i)
  }

  // A colour with a channel that reaches the threshold.
  ghost predicate Bright(c: ColorRgb, t: Byte) {
    exists ch: Channel :: Get(c, ch) >= t
  }

  lemma LitIsBright(c: ColorRgb, t: Byte)
    ensures Lit(c, t) <==> Bright(c, t)
  {
    assert Get(c, Red) == c.red && Get(c, Green) == c.green && Get(c, Blue) == c.blue;
  }

  // The widths of the dark bars around a picture.
  datatype Bars = Bars(top: nat, bottom: nat, left: nat, right: nat)

  predicate InPicture(im: Image, bars: Bars, x: int, y: int) {
    bars.left <= x < im.width - bars.right && bars.top <= y < im.height - bars.bottom
  }

  // A picture, bright everywhere, between dark bars.
  ghost predicate Barred(im: Image, t: Byte, bars: Bars)
    requires Usable(im)
  {
    && bars.top + bars.bottom < im.height && bars.left + bars.right < im.width
    && forall x, y :: 0 <= x < im.width && 0 <= y < im.height ==>
         (Bright(im.At(x, y), t) <==> InPicture(im, bars, x, y))
  }

  // No bar as wide as a third of the image.
  predicate Thin(im: Image, bars: Bars) {
    bars.top < im.height / 3 && bars.bottom < im.height / 3 && bars.left < im.width / 3 && bars.right < im.width / 3
  }

  lemma LitAt(im: Image, t: Byte, bars: Bars, x: int, y: int)
    requires Usable(im) && Barred(im, t, bars) && 0 <= x < im.width && 0 <= y < im.height
    ensures Lit(im.At(x, y), t) <==> InPicture(im, bars, x, y)
  {
    LitIsBright(im.At(x, y), t);
  }

  lemma BarsFit(im: Image, t: Byte, bars: Bars)
    requires Usable(im) && Barred(im, t, bars)
    ensures bars.top + bars.bottom < im.height && bars.left + bars.right < im.width
  {
  }

  lemma ColumnInBars(im: Image, t: Byte, bars: Bars, x: int)
    requires Usable(im) && Barred(im, t, bars) && 0 <= x < im.width / 3
    ensures x < Min(bars.left, bars.right) ==> !ColumnLit(im, t, x)
    ensures Thin(im, bars) && Min(bars.left, bars.right) <= x ==> ColumnLit(im, t, x)
  {
    hide Lit, Image.At, Barred;
    LitAt(im, t, bars, im.width - 1 - x, im.height / 2);
    LitAt(im, t, bars, x, im.height / 3);
    LitAt(im, t, bars, x, im.height / 3 * 2);
  }

  lemma RowInBars(im: Image, t: Byte, bars: Bars, y: int)
    requires Usable(im) && Barred(im, t, bars) && 0 <= y < im.height / 3
    ensures y < Min(bars.top, bars.bottom) ==> !RowLit(im, t, y)
    ensures Thin(im, bars) && Min(bars.top, bars.bottom) <= y ==> RowLit(im, t, y)
  {
    hide Lit, Image.At, Barred;
    LitAt(im, t, bars, im.width / 2, im.height - 1 - y);
    LitAt(im, t, bars, im.width / 3, y);
    LitAt(im, t, bars, im.width / 3 * 2, y);
  }

  lemma RowAtInBars(im: Image, t: Byte, bars: Bars, x: int, y: int)
    requires Usable(im) && Barred(im, t, bars) && 0 <= x <= im.width / 3 && x < im.width && 0 <= y < im.height / 3
    ensures y < Min(bars.top, bars.bottom) ==> !RowLitAt(im, t, x, y)
    ensures Thin(im, bars) && Min(bars.left, bars.right) <= x && Min(bars.top, bars.bottom) <= y ==>
              RowLitAt(im, t, x, y)
  {
    hide Lit, Image.At, Barred;
    LitAt(im, t, bars, x, y);
    LitAt(im, t, bars, x, im.height - 1 - y);
    LitAt(im, t, bars, im.width - 1 - x, y);
    LitAt(im, t, bars, im.width - 1 - x, im.height - 1 - y);
  }

  lemma FoundColumn(im: Image, t: Byte, bars: Bars, r: int)
    requires Usable(im) && Barred(im, t, bars) && FirstColumn(im, t, r)
    ensures r == -1 || Min(bars.left, bars.right) <= r < im.width / 3
    ensures Thin(im, bars) ==> r == Min(bars.left, bars.right)
  {
    hide ColumnLit, Barred;
    if r >= 0 { ColumnInBars(im, t, bars, r); }
    if Thin(im, bars) { ColumnInBars(im, t, bars, Min(bars.left, bars.right)); }
  }

  lemma FoundByDefault(im: Image, t: Byte, bars: Bars, b: BlackBorder)
    requires Usable(im) && Barred(im, t, bars) && Detects(Default, im, t, b)
    ensures Thin(im, bars) ==> b == BlackBorder(false, Min(bars.top, bars.bottom), Min(bars.left, bars.right))
    ensures Min(bars.left, bars.right) >= im.width / 3 || Min(bars.top, bars.bottom) >= im.height / 3 ==> b.unknown
  {
    hide RowLit, Barred, FirstColumn;
    FoundColumn(im, t, bars, b.verticalSize);
    if b.horizontalSize >= 0 { RowInBars(im, t, bars, b.horizontalSize); }
    if Thin(im, bars) { RowInBars(im, t, bars, Min(bars.top, bars.bottom)); }
  }

  lemma FoundByOsd(im: Image, t: Byte, bars: Bars, b: BlackBorder)
    requires Usable(im) && Barred(im, t, bars) && Detects(Osd, im, t, b)
    ensures Thin(im, bars) ==> b == BlackBorder(false, Min(bars.top, bars.bottom), Min(bars.left, bars.right))
    ensures Min(bars.left, bars.right) >= im.width / 3 || Min(bars.top, bars.bottom) >= im.height / 3 ==> b.unknown
  {
    hide RowLitAt, Barred, FirstColumn;
    FoundColumn(im, t, bars, b.verticalSize);
    var x := if b.verticalSize == -1 then im.width / 3 else b.verticalSize;
    if b.horizontalSize >= 0 { RowAtInBars(im, t, bars, x, b.horizontalSize); }
    if Thin(im, bars) { RowAtInBars(im, t, bars, x, Min(bars.top, bars.bottom)); }
  }

  lemma FoundByClassic(im: Image, t: Byte, bars: Bars, b: BlackBorder)
    requires Usable(im) && Barred(im, t, bars) && Thin(im, bars) && Detects(Classic, im, t, b)
    ensures b == BlackBorder(false, bars.top, bars.left)
  {
    hide Lit, Image.At, Barred, LeftEnd, TopEnd, DiagonalLit;
    var i :| ClassicCorner(im, t, b, i);
    if i >= 0 { DiagonalInBars(im, t, bars, i); }
    DiagonalInBars(im, t, bars, Max(bars.top, bars.left));
    assert i == Max(bars.top, bars.left);
    var x0, y0 := Min(i, im.width / 3), Min(i, im.height / 3);
    EndsAtBars(im, t, bars, x0, y0);
    LeftEndUnique(im, t, x0, y0, b.verticalSize, bars.left);
    TopEndUnique(im, t, bars.left, y0, b.horizontalSize, bars.top);
  }

  lemma DiagonalInBars(im: Image, t: Byte, bars: Bars, i: nat)
    requires Usable(im) && Barred(im, t, bars) && Thin(im, bars)
    ensures DiagonalLit(im, t, i) <==> i >= Max(bars.top, bars.left)
  {
    hide Lit, Image.At, Barred;
    LitAt(im, t, bars, Min(i, im.width / 3), Min(i, im.height / 3));
  }

  lemma EndsAtBars(im: Image, t: Byte, bars: Bars, x0: int, y0: int)
    requires Usable(im) && Barred(im, t, bars) && InPicture(im, bars, x0, y0)
    ensures LeftEnd(im, t, x0, y0, bars.left) && TopEnd(im, t, bars.left, y0, bars.top)
  {
    hide Lit, Image.At, Barred;
    BarsFit(im, t, bars);
    forall k | bars.left <= k < x0
      ensures Lit(im.At(k, y0), t)
    {
      LitAt(im, t, bars, k, y0);
    }
    forall k | bars.top <= k < y0
      ensures Lit(im.At(bars.left, k), t)
    {
      LitAt(im, t, bars, bars.left, k);
    }
    if bars.left > 0 { LitAt(im, t, bars, bars.left - 1, y0); }
    if bars.top > 0 { LitAt(im, t, bars, bars.left, bars.top - 1); }
  }

  // Main result: of bars thinner than a third of the image the default and the osd mode find the
  // thinner one in each direction, the classic mode the top and the left one. The first two report
  // an unknown border when both bars of a direction are wider.
  lemma BarsFound(mode: Mode, im: Image, t: Byte, bars: Bars, b: BlackBorder)
    requires Usable(im) && Barred(im, t, bars) && Detects(mode, im, t, b)
    ensures Thin(im, bars) ==>
              b == if mode == Classic then BlackBorder(false, bars.top, bars.left)
                   else BlackBorder(false, Min(bars.top, bars.bottom), Min(bars.left, bars.right))
    ensures Min(bars.left, bars.right) >= im.width / 3 || Min(bars.top, bars.bottom) >= im.height / 3 ==>
              mode == Classic || b.unknown
  {
    hide Barred, Detects;
    match mode {
      case Classic => if Thin(im, bars) { FoundByClassic(im, t, bars, b); }
      case Default => FoundByDefault(im, t, bars, b);
      case Osd => FoundByOsd(im, t, bars, b);
    }
  }

  // A dark image with one bright pixel.
  ghost predicate LoneLight(im: Image, t: Byte, px: int, py: int)
    requires Usable(im)
  {
    && 0 <= px < im.width && 0 <= py < im.height
    && forall x, y :: 0 <= x < im.width && 0 <= y < im.height ==> (Bright(im.At(x, y), t) <==> x == px && y == py)
  }

  lemma LoneLit(im: Image, t: Byte, px: int, py: int, x: int, y: int)
    requires Usable(im) && LoneLight(im, t, px, py) && 0 <= x < im.width && 0 <= y < im.height
    ensures Lit(im.At(x, y), t) <==> x == px && y == py
  {
    LitIsBright(im.At(x, y), t);
  }

  // The distance of a light from the near end of an axis if it is seen there, or from the far end.
  function Seen(near: bool, far: bool, p: int, size: int): int {
    if near && p < size / 3 then p else if far && size - 1 - p < size / 3 then size - 1 - p else -1
  }

  lemma LoneColumn(im: Image, t: Byte, px: int, py: int, r: int)
    requires Usable(im) && LoneLight(im, t, px, py) && FirstColumn(im, t, r)
    ensures r == Seen(py == im.height / 3 || py == im.height / 3 * 2, py == im.height / 2, px, im.width)
  {
    hide Lit, Image.At, LoneLight;
    forall x | 0 <= x < im.width / 3
      ensures ColumnLit(im, t, x) <==> (px == x && (py == im.height / 3 || py == im.height / 3 * 2))
                                       || (px == im.width - 1 - x && py == im.height / 2)
    {
      LoneLit(im, t, px, py, im.width - 1 - x, im.height / 2);
      LoneLit(im, t, px, py, x, im.height / 3);
      LoneLit(im, t, px, py, x, im.height / 3 * 2);
    }
    hide ColumnLit;
    LoneInside(im, t, px, py);
    var s := Seen(py == im.height / 3 || py == im.height / 3 * 2, py == im.height / 2, px, im.width);
    assert s >= 0 ==> ColumnLit(im, t, s);
  }

  lemma LoneInside(im: Image, t: Byte, px: int, py: int)
    requires Usable(im) && LoneLight(im, t, px, py)
    ensures 0 <= px < im.width && 0 <= py < im.height
  {
  }

  lemma LoneRow(im: Image, t: Byte, px: int, py: int, r: int)
    requires Usable(im) && LoneLight(im, t, px, py) && FirstRow(im, t, r)
    ensures r == Seen(px == im.width / 3 || px == im.width / 3 * 2, px == im.width / 2, py, im.height)
  {
    hide Lit, Image.At, LoneLight;
    forall y | 0 <= y < im.height / 3
      ensures RowLit(im, t, y) <==> (py == y && (px == im.width / 3 || px == im.width / 3 * 2))
                                    || (py == im.height - 1 - y && px == im.width / 2)
    {
      LoneLit(im, t, px, py, im.width / 2, im.height - 1 - y);
      LoneLit(im, t, px, py, im.width / 3, y);
      LoneLit(im, t, px, py, im.width / 3 * 2, y);
    }
    hide RowLit;
    LoneInside(im, t, px, py);
    var s := Seen(px == im.width / 3 || px == im.width / 3 * 2, px == im.width / 2, py, im.height);
    assert s >= 0 ==> RowLit(im, t, s);
  }

  lemma LoneRowAt(im: Image, t: Byte, px: int, py: int, x: int, r: int)
    requires Usable(im) && LoneLight(im, t, px, py) && 0 <= x < im.width && FirstRowAt(im, t, x, r)
    ensures var beside := px == x || px == im.width - 1 - x; r == Seen(beside, beside, py, im.height)
  {
    hide Lit, Image.At, LoneLight;
    forall y | 0 <= y < im.height / 3
      ensures RowLitAt(im, t, x, y) <==> (py == y || py == im.height - 1 - y) && (px == x || px == im.width - 1 - x)
    {
      LoneLit(im, t, px, py, x, y);
      LoneLit(im, t, px, py, x, im.height - 1 - y);
      LoneLit(im, t, px, py, im.width - 1 - x, y);
      LoneLit(im, t, px, py, im.width - 1 - x, im.height - 1 - y);
    }
    hide RowLitAt;
    LoneInside(im, t, px, py);
    var s := Seen(px == x || px == im.width - 1 - x, px == x || px == im.width - 1 - x, py, im.height);
    assert s >= 0 ==> RowLitAt(im, t, x, s);
  }

  lemma LoneCorner(im: Image, t: Byte, px: int, py: int, b: BlackBorder)
    requires Usable(im) && LoneLight(im, t, px, py) && Detects(Classic, im, t, b)
    ensures b == if OnDiagonal(im, px, py) then BlackBorder(false, py, px) else BlackBorder(true, -1, -1)
  {
    hide Lit, Image.At, LoneLight;
    var i :| ClassicCorner(im, t, b, i);
    LoneInside(im, t, px, py);
    forall k: nat
      ensures DiagonalLit(im, t, k) <==> px == Min(k, im.width / 3) && py == Min(k, im.height / 3)
    {
      LoneLit(im, t, px, py, Min(k, im.width / 3), Min(k, im.height / 3));
    }
    hide DiagonalLit;
    assert OnDiagonal(im, px, py) ==> i == Max(px, py);
    if i >= 0 {
      if px > 0 { LoneLit(im, t, px, py, px - 1, py); }
      if py > 0 { LoneLit(im, t, px, py, px, py - 1); }
    }
  }

  // The points of the classic search.
  predicate OnDiagonal(im: Image, x: int, y: int) {
    var i := Max(x, y);
    i < Max(im.width / 3, im.height / 3) && x == Min(i, im.width / 3) && y == Min(i, im.height / 3)
  }

  // Main result: the points each mode looks at. A single light is found exactly if it stands on
  // one of them, at its distance from that edge.
  lemma LoneLightFound(mode: Mode, im: Image, t: Byte, px: int, py: int, b: BlackBorder)
    requires Usable(im) && LoneLight(im, t, px, py) && Detects(mode, im, t, b)
    ensures var (w, h) := (im.width, im.height);
            var column := Seen(py == h / 3 || py == h / 3 * 2, py == h / 2, px, w);
            var at := if column == -1 then w / 3 else column;
            match mode
            case Default =>
              var row := Seen(px == w / 3 || px == w / 3 * 2, px == w / 2, py, h);
              b == BlackBorder(column == -1 || row == -1, row, column)
            case Osd =>
              var row := Seen(px == at || px == w - 1 - at, px == at || px == w - 1 - at, py, h);
              b == BlackBorder(column == -1 || row == -1, row, column)
            case Classic =>
              b == if OnDiagonal(im, px, py) then BlackBorder(false, py, px) else BlackBorder(true, -1, -1)
  {
    hide LoneLight, FirstColumn, FirstRow, FirstRowAt, ClassicCorner;
    LoneInside(im, t, px, py);
    match mode {
      case Default =>
        LoneColumn(im, t, px, py, b.verticalSize);
        LoneRow(im, t, px, py, b.horizontalSize);
      case Osd =>
        LoneColumn(im, t, px, py, b.verticalSize);
        LoneRowAt(im, t, px, py, if b.verticalSize == -1 then im.width / 3 else b.verticalSize, b.horizontalSize);
      case Classic => LoneCorner(im, t, px, py, b);
    }
  }

  // What is detected depends on the image alone.
  lemma DetectionUnique(mode: Mode, im: Image, t: Byte, a: BlackBorder, b: BlackBorder)
    requires Usable(im) && Detects(mode, im, t, a) && Detects(mode, im, t, b)
    ensures a == b
  {
    match mode {
      case Classic =>
        var i :| ClassicCorner(im, t, a, i);
        var k :| ClassicCorner(im, t, b, k);
        FirstDiagonalUnique(im, t, i, k);
        if i >= 0 {
          var x0, y0 := Min(i, im.width / 3), Min(i, im.height / 3);
          LeftEndUnique(im, t, x0, y0, a.verticalSize, b.verticalSize);
          TopEndUnique(im, t, a.verticalSize, y0, a.horizontalSize, b.horizontalSize);
        }
      case _ =>
    }
  }

  lemma FirstDiagonalUnique(im: Image, t: Byte, i: int, k: int)
    requires Usable(im) && FirstDiagonal(im, t, i) && FirstDiagonal(im, t, k)
    ensures i == k
  {
  }

  lemma LeftEndUnique(im: Image, t: Byte, x0: int, y: int, x: int, x': int)
    requires Usable(im) && x0 < im.width && 0 <= y < im.height
    requires LeftEnd(im, t, x0, y, x) && LeftEnd(im, t, x0, y, x')
    ensures x == x'
  {
  }

  lemma TopEndUnique(im: Image, t: Byte, x: int, y0: int, y: int, y': int)
    requires Usable(im) && 0 <= x < im.width && y0 < im.height
    requires TopEnd(im, t, x, y0, y) && TopEnd(im, t, x, y0, y')
    ensures y == y'
  {
  }

  method ProcessDefault(im: Image, t: Byte) returns (b: BlackBorder)
    requires Usable(im)
    ensures Detects(Default, im, t, b)
  {
    var firstX, firstY := -1, -1;
    var x := 0;
    while x < im.width / 3
      invariant 0 <= x <= im.width / 3 && firstX == -1
      invariant forall k :: 0 <= k < x ==> !ColumnLit(im, t, k)
    {
      if || Lit(im.At(im.width - 1 - x, im.height / 2), t)
         || Lit(im.At(x, im.height / 3), t)
         || Lit(im.At(x, im.height / 3 * 2), t)
      {
        firstX := x;
        break;
      }
      x := x + 1;
    }
    var y := 0;
    while y < im.height / 3
      invariant 0 <= y <= im.height / 3 && firstY == -1
      invariant forall k :: 0 <= k < y ==> !RowLit(im, t, k)
    {
      if || Lit(im.At(im.width / 2, im.height - 1 - y), t)
         || Lit(im.At(im.width / 3, y), t)
         || Lit(im.At(im.width / 3 * 2, y), t)
      {
        firstY := y;
        break;
      }
      y := y + 1;
    }
    b := BlackBorder(firstX == -1 || firstY == -1, firstY, firstX);
  }

  method ProcessOsd(im: Image, t: Byte) returns (b: BlackBorder)
    requires Usable(im)
    ensures Detects(Osd, im, t, b)
  {
    var firstX, firstY := -1, -1;
    var x := 0;
    while x < im.width / 3
      invariant 0 <= x <= im.width / 3 && firstX == -1
      invariant forall k :: 0 <= k < x ==> !ColumnLit(im, t, k)
    {
      if || Lit(im.At(im.width - 1 - x, im.height / 2), t)
         || Lit(im.At(x, im.height / 3), t)
         || Lit(im.At(x, im.height / 3 * 2), t)
      {
        firstX := x;
        break;
      }
      x := x + 1;
    }
    var y := 0;
    while y < im.height / 3
      invariant 0 <= y <= im.height / 3 && firstY == -1
      invariant forall k :: 0 <= k < y ==> !RowLitAt(im, t, x, k)
    {
      if || Lit(im.At(x, y), t)
         || Lit(im.At(x, im.height - 1 - y), t)
         || Lit(im.At(im.width - 1 - x, y), t)
         || Lit(im.At(im.width - 1 - x, im.height - 1 - y), t)
      {
        firstY := y;
        break;
      }
      y := y + 1;
    }
    b := BlackBorder(firstX == -1 || firstY == -1, firstY, firstX);
  }

  method ProcessClassic(im: Image, t: Byte) returns (b: BlackBorder)
    requires Usable(im)
    ensures Detects(Classic, im, t, b)
  {
    var width, height := im.width / 3, im.height / 3;
    var maxSize := Max(width, height);
    var firstX, firstY := -1, -1;
    var i := 0;
    while i < maxSize
      invariant 0 <= i <= maxSize && firstX == -1 && firstY == -1
      invariant forall k :: 0 <= k < i ==> !DiagonalLit(im, t, k)
    {
      var x, y := Min(i, width), Min(i, height);
      if Lit(im.At(x, y), t) {
        firstX, firstY := x, y;
        break;
      }
      i := i + 1;
    }
    ghost var found := if firstX == -1 then -1 else i;
    while firstX > 0
      invariant found == -1 ==> firstX == -1
      invariant found >= 0 ==> 0 <= firstX <= Min(found, width) && firstY == Min(found, height)
      invariant found >= 0 ==> forall k :: firstX <= k < Min(found, width) ==> Lit(im.At(k, firstY), t)
    {
      if !Lit(im.At(firstX - 1, firstY), t) {
        break;
      }
      firstX := firstX - 1;
    }
    while firstY > 0
      invariant found == -1 ==> firstY == -1
      invariant found >= 0 ==> 0 <= firstY <= Min(found, height)
      invariant found >= 0 ==> forall k :: firstY <= k < Min(found, height) ==> Lit(im.At(firstX, k), t)
    {
      if !Lit(im.At(firstX, firstY - 1), t) {
        break;
      }
      firstY := firstY - 1;
    }
    b := BlackBorder(firstX == -1 || firstY == -1, firstY, firstX);
    assert ClassicCorner(im, t, b, found);
  }

  function AddBlur(b: BlackBorder, blur: nat): BlackBorder {
    BlackBorder(b.unknown,
                if b.horizontalSize > 0 then b.horizontalSize + blur else b.horizontalSize,
                if b.verticalSize > 0 then b.verticalSize + blur else b.verticalSize)
  }

  // ---------------------------------------------------------------- a known border leaves picture

  // The size asserts of ImageToLedsMap for this border.
  predicate Fits(im: Image, b: BlackBorder) {
    && 0 <= b.verticalSize && 0 <= b.horizontalSize
    && im.width > 2 * b.verticalSize && im.height > 2 * b.horizontalSize
  }

  // The largest blur with which every known border leaves part of the image.
  function SafeBlur(mode: Mode): nat {
    if mode == Classic then 0 else 1
  }

  lemma KnownBorderFits(mode: Mode, im: Image, t: Byte, b: BlackBorder, blur: nat)
    requires Usable(im) && Detects(mode, im, t, b) && !b.unknown && blur <= SafeBlur(mode)
    ensures Fits(im, AddBlur(b, blur))
  {
    if mode == Classic {
      var i :| ClassicCorner(im, t, b, i);
    }
  }

  ghost predicate AlwaysFits(mode: Mode, blur: nat) {
    forall im: Image, t: Byte, b: BlackBorder ::
      Usable(im) && Detects(mode, im, t, b) && !b.unknown ==> Fits(im, AddBlur(b, blur))
  }

  // Main result: the size asserts hold for every image exactly when the blur is at most 1, and
  // in classic mode exactly when there is none.
  lemma FitsIffBlurIsSafe(mode: Mode, blur: nat)
    ensures AlwaysFits(mode, blur) <==> blur <= SafeBlur(mode)
  {
    if blur <= SafeBlur(mode) {
      forall im: Image, t: Byte, b: BlackBorder | Usable(im) && Detects(mode, im, t, b) && !b.unknown
        ensures Fits(im, AddBlur(b, blur))
      {
        KnownBorderFits(mode, im, t, b, blur);
      }
    } else {
      if mode == Classic {
        var im, b := ClassicMisfit(blur);
      } else {
        var im, b := Misfit(mode, blur);
      }
    }
  }

  // Images whose border takes all of the width once blurred.
  lemma Misfit(mode: Mode, blur: nat) returns (im: Image, b: BlackBorder)
    requires mode != Classic && blur > 1
    ensures Usable(im) && Detects(mode, im, 1, b) && !b.unknown && !Fits(im, AddBlur(b, blur))
  {
    im := DarkEdges();
    b := BlackBorder(false, 0, 1);
    DarkEdgesFacts();
  }

  // Six by six, lit except for the leftmost and rightmost columns.
  function DarkEdges(): Image {
    Image(6, 6, seq(36, i => if i % 6 == 0 || i % 6 == 5 then BLACK else ColorRgb(255, 255, 255)))
  }

  lemma DarkEdgesFacts()
    ensures var im := DarkEdges();
            !ColumnLit(im, 1, 0) && ColumnLit(im, 1, 1) && RowLit(im, 1, 0) && RowLitAt(im, 1, 1, 0)
  {
    var im := DarkEdges();
    assert im.At(5, 3) == BLACK && im.At(0, 2) == BLACK && im.At(0, 4) == BLACK;
    assert Lit(im.At(4, 3), 1) && Lit(im.At(3, 5), 1) && Lit(im.At(1, 0), 1);
  }

  // They are a picture between two thin bars.
  lemma DarkEdgesBarred()
    ensures var im, bars := DarkEdges(), Bars(0, 0, 1, 1);
            Usable(im) && Barred(im, 1, bars) && Thin(im, bars)
  {
    var im, bars := DarkEdges(), Bars(0, 0, 1, 1);
    forall x, y | 0 <= x < 6 && 0 <= y < 6
      ensures Bright(im.At(x, y), 1) <==> InPicture(im, bars, x, y)
    {
      LitIsBright(im.At(x, y), 1);
      assert im.At(x, y) == if x == 0 || x == 5 then BLACK else ColorRgb(255, 255, 255);
    }
  }

  lemma ClassicMisfit(blur: nat) returns (im: Image, b: BlackBorder)
    requires blur > 0
    ensures Usable(im) && Detects(Classic, im, 1, b) && !b.unknown && !Fits(im, AddBlur(b, blur))
  {
    var w := ColorRgb(255, 255, 255);
    im := Image(3, 6, seq(18, i => if i % 3 == 1 && i > 3 then w else BLACK));
    b := BlackBorder(false, 1, 1);
    assert im.At(0, 0) == BLACK && im.At(1, 1) == w && im.At(0, 1) == BLACK && im.At(1, 0) == BLACK;
    assert ClassicCorner(im, 1, b, 1);
  }
}

module BorderProcessor {
  import opened Colors
  import opened Images
  import opened BorderHysteresis
  import opened BorderDetection

  class BlackBorderProcessor {
    var enabled: bool
    var userEnabled: bool
    var hardDisabled: bool
    var unknownSwitchCnt: nat
    var borderSwitchCnt: nat
    var maxInconsistentCnt: nat
    var blurRemoveCnt: nat
    var detectionMode: Mode
    var threshold: Byte

    var currentBorder: BlackBorder
    var previousDetectedBorder: BlackBorder
    var consistentCnt: nat
    var inconsistentCnt: nat

    constructor (settings: Settings, blur: nat, mode: Mode, threshold: Byte, enable: bool)
      ensures Valid() && Counting() == settings && blurRemoveCnt == blur && detectionMode == mode
      ensures this.threshold == threshold && userEnabled == enable && !hardDisabled
      ensures Tracked() == START
    {
      unknownSwitchCnt, borderSwitchCnt := settings.unknownSwitchCnt, settings.borderSwitchCnt;
      maxInconsistentCnt, blurRemoveCnt := settings.maxInconsistentCnt, blur;
      detectionMode, this.threshold := mode, threshold;
      currentBorder, previousDetectedBorder := BlackBorder(true, -1, -1), BlackBorder(true, -1, -1);
      consistentCnt, inconsistentCnt := 0, 10;
      enabled, userEnabled, hardDisabled := enable, enable, false;
    }

    // Detection runs when the user wants it and no component forbids it.
    ghost predicate Valid()
      reads this
    {
      enabled == (userEnabled && !hardDisabled)
    }

    ghost function Counting(): Settings
      reads this
    {
      Settings(unknownSwitchCnt, borderSwitchCnt, maxInconsistentCnt)
    }

    ghost function Tracked(): State
      reads this
    {
      State(currentBorder, previousDetectedBorder, consistentCnt, inconsistentCnt)
    }

    method ComponentStateChanged(enable: bool)
      requires Valid()
      modifies `userEnabled, `enabled
      ensures Valid() && userEnabled == enable
    {
      userEnabled := enable;
      if enable {
        if !hardDisabled {
          enabled := enable;
        }
      } else {
        enabled := enable;
      }
    }

    method SetHardDisable(disable: bool)
      requires Valid()
      modifies `hardDisabled, `enabled
      ensures Valid() && hardDisabled == disable
    {
      if disable {
        enabled := false;
      } else {
        if userEnabled {
          enabled := true;
        }
      }
      hardDisabled := disable;
    }

    method UpdateBorder(newDetectedBorder: BlackBorder) returns (borderChanged: bool)
      modifies `currentBorder, `previousDetectedBorder, `consistentCnt, `inconsistentCnt
      ensures Result(Tracked(), borderChanged) == Update(Counting(), old(Tracked()), newDetectedBorder)
    {
      if Same(newDetectedBorder, previousDetectedBorder) {
        consistentCnt := consistentCnt + 1;
        inconsistentCnt := 0;
      } else {
        inconsistentCnt := inconsistentCnt + 1;
        if inconsistentCnt <= maxInconsistentCnt {
          return false;
        }
        previousDetectedBorder := newDetectedBorder;
        consistentCnt := 0;
      }
      if Same(currentBorder, newDetectedBorder) {
        inconsistentCnt := 0;
        return false;
      }
      borderChanged := false;
      if newDetectedBorder.unknown {
        if consistentCnt == unknownSwitchCnt {
          currentBorder := newDetectedBorder;
          borderChanged := true;
        }
      } else {
        if currentBorder.unknown || consistentCnt == borderSwitchCnt {
          currentBorder := newDetectedBorder;
          borderChanged := true;
        }
      }
    }

    method Detect(image: Image) returns (b: BlackBorder)
      requires Usable(image)
      ensures Detects(detectionMode, image, threshold, b)
    {
      match detectionMode {
        case Default => b := ProcessDefault(image, threshold);
        case Classic => b := ProcessClassic(image, threshold);
        case Osd => b := ProcessOsd(image, threshold);
      }
    }

    // What one analysed image does: its border, blurred, is what the hysteresis sees.
    ghost predicate Analysed(image: Image, before: State, changed: bool)
      requires Usable(image)
      reads this
    {
      exists b ::
        && Detects(detectionMode, image, threshold, b)
        && Result(Tracked(), changed) == Update(Counting(), before, AddBlur(b, blurRemoveCnt))
    }

    // A reported change makes this image's own border the current one, so it fits this image.
    method Process(image: Image) returns (changed: bool)
      requires Usable(image)
      modifies `currentBorder, `previousDetectedBorder, `consistentCnt, `inconsistentCnt
      ensures !enabled ==> changed && Tracked() == Step(Counting(), old(Tracked()), Disabled)
      ensures enabled ==> Analysed(image, old(Tracked()), changed)
      ensures enabled && changed && !currentBorder.unknown && blurRemoveCnt <= SafeBlur(detectionMode)
              ==> Fits(image, currentBorder)
    {
      hide Detects, Fits;
      if !enabled {
        currentBorder := BlackBorder(true, 0, 0);
        return true;
      }
      var imageBorder := Detect(image);
      ghost var seen := imageBorder;
      if imageBorder.horizontalSize > 0 {
        imageBorder := imageBorder.(horizontalSize := imageBorder.horizontalSize + blurRemoveCnt);
      }
      if imageBorder.verticalSize > 0 {
        imageBorder := imageBorder.(verticalSize := imageBorder.verticalSize + blurRemoveCnt);
      }
      assert imageBorder == AddBlur(seen, blurRemoveCnt);
      changed := UpdateBorder(imageBorder);
      if !seen.unknown && blurRemoveCnt <= SafeBlur(detectionMode) {
        KnownBorderFits(detectionMode, image, threshold, seen, blurRemoveCnt);
      }
    }
  }
}
