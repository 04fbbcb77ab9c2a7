// Values shared by the models: colour bytes, images and the integer arithmetic of the C++ code.

module Colors {
  type Byte = b: int | 0 <= b < 256

  datatype ColorRgb = ColorRgb(red: Byte, green: Byte, blue: Byte)

  const BLACK := ColorRgb(0, 0, 0)

  datatype Channel = Red | Green | Blue

  function Get(c: ColorRgb, ch: Channel): Byte {
    match ch
    case Red => c.red
    case Green => c.green
    case Blue => c.blue
  }
}

module Arithmetic {
  const TWO31 := 0x8000_0000
  const TWO32 := 0x1_0000_0000
  const TWO64 := 0x1_0000_0000_0000_0000

  function Abs(x: int): nat {
    if x < 0 then -x else x
  }

  function Min(a: int, b: int): int {
    if a < b then a else b
  }

  function Max(a: int, b: int): int {
    if a < b then b else a
  }

  // The value an `int` keeps of a 64-bit difference assigned to it.
  function Wrap32(x: int): (r: int)
    ensures -TWO31 <= r < TWO31
    ensures -TWO31 <= x < TWO31 ==> r == x
    ensures (r - x) % TWO32 == 0
  {
    (x + TWO31) % TWO32 - TWO31
  }

  // The smallest integer not below a / b.
  function CeilDiv(a: int, b: int): (r: int)
    requires b != 0
    ensures b > 0 ==> (r - 1) * b < a <= r * b
    ensures b < 0 ==> r * b <= a < (r - 1) * b
  {
    if b > 0 then -((-a) / b) else -(a / (-b))
  }

  lemma MulLe(a: int, b: int, c: int)
    requires a <= b && 0 <= c
    ensures a * c <= b * c
  {
  }

  lemma MulLt(a: int, b: int, c: int)
    requires a < b && 0 < c
    ensures a * c < b * c
  {
  }

  lemma DivideLe(a: int, b: int, c: int)
    requires a * c <= b * c && 0 < c
    ensures a <= b
  {
    if b < a { MulLt(b, a, c); }
  }

  lemma DivideLt(a: int, b: int, c: int)
    requires a * c < b * c && 0 < c
    ensures a < b
  {
    if b <= a { MulLe(b, a, c); }
  }

  lemma MulSwap(x: int, y: int, z: int)
    ensures (x * y) * z == (x * z) * y
  {
  }

  lemma CeilAtMost(a: int, b: int, hi: int)
    requires 0 < b && a <= hi * b
    ensures CeilDiv(a, b) <= hi
  {
    DivideLt(CeilDiv(a, b) - 1, hi, b);
  }

  lemma CeilAbove(a: int, b: int, lo: int)
    requires 0 < b && lo * b < a
    ensures lo < CeilDiv(a, b)
  {
    DivideLt(lo, CeilDiv(a, b), b);
  }
}

module Sequences {
  lemma Assoc<T>(a: seq<T>, b: seq<T>, c: seq<T>)
    ensures (a + b) + c == a + (b + c)
  {
  }

  lemma HeadTail<T>(s: seq<T>)
    requires s != []
    ensures [s[0]] + s[1..] == s
  {
  }

  lemma AppendNone<T>(s: seq<T>)
    ensures s + [] == s
  {
  }

  lemma SliceAgain<T>(s: seq<T>, i: nat, n: nat)
    requires i + n <= |s|
    ensures s[i..][..n] == s[i..i + n] && s[i..][n..] == s[i + n..]
  {
  }

  lemma SliceMore<T>(s: seq<T>, more: seq<T>, i: nat, j: nat)
    requires i <= j <= |s|
    ensures (s + more)[i..j] == s[i..j] && (s + more)[j..] == s[j..] + more
  {
  }
}

module Images {
  import opened Colors
  import opened Arithmetic

  // Where a pixel is in a row-oriented image.
  function Index(x: int, y: int, width: int): int {
    y * width + x
  }

  lemma InImage(x: int, y: int, width: int, height: int)
    requires 0 <= x < width && 0 <= y < height
    ensures 0 <= Index(x, y, width) < width * height
  {
    MulLe(0, y, width);
    MulLe(y + 1, height, width);
    assert (y + 1) * width == y * width + width;
  }

  datatype Image = Image(width: nat, height: nat, pixels: seq<ColorRgb>) {
    predicate Valid() {
      |pixels| == width * height
    }

    function At(x: int, y: int): ColorRgb
      requires Valid() && 0 <= x < width && 0 <= y < height
    {
      InImage(x, y, width, height);
      pixels[Index(x, y, width)]
    }
  }
}

module Wrappers {
  datatype Option<T> = None | Some(value: T)
}
