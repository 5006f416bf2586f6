/** Device-independent bitmaps: rows of BGR(A) pixels, bottom row first, each padded to four bytes. */
module DibImage {
  import opened ByteStrings

  datatype Rgba = Rgba(r: Byte, g: Byte, b: Byte, a: Byte)

  const BLANK := Rgba(0, 0, 0, 0)

  predicate Supported(bitCount: int) { bitCount == 24 || bitCount == 32 }

  function Abs(n: int): nat { if n < 0 then -n else n }

  /** Bytes per row in the block. */
  function Stride(width: int, bitCount: int): int { (width * bitCount + 31) / 32 * 4 }

  function RowBytes(width: int, bitCount: int): int { width * (bitCount / 8) }

  /** Where pixel `x` of the block's row `row` begins. */
  function Offset(width: int, bitCount: int, x: int, row: int): int {
    row * Stride(width, bitCount) + x * (bitCount / 8)
  }

  function BlockSize(width: int, height: int, bitCount: int): int { Abs(height) * Stride(width, bitCount) }

  // ---------- Stride and bounds ----------

  /** The stride is the least multiple of four that holds a row. */
  lemma StrideIsLeast(width: nat, bitCount: int)
    requires Supported(bitCount)
    ensures Stride(width, bitCount) % 4 == 0 && Stride(width, bitCount) >= RowBytes(width, bitCount)
    ensures forall s :: s % 4 == 0 && s >= RowBytes(width, bitCount) ==> s >= Stride(width, bitCount)
  {
    hide Stride, RowBytes;
    RowInBits(width, bitCount);
    LeastMultiple(RowBytes(width, bitCount));
  }

  lemma RowInBits(width: nat, bitCount: int)
    requires Supported(bitCount)
    ensures RowBytes(width, bitCount) >= 0
    ensures Stride(width, bitCount) == (8 * RowBytes(width, bitCount) + 31) / 32 * 4
  {
    if bitCount == 24 { assert width * 24 == 8 * (width * 3); } else { assert width * 32 == 8 * (width * 4); }
  }

  /** Rounding a row of whole bytes up to 32 bits. */
  lemma LeastMultiple(row: nat)
    ensures var s := (8 * row + 31) / 32 * 4;
            s % 4 == 0 && s >= row && forall n :: n % 4 == 0 && n >= row ==> n >= s
  {}

  /** Every byte of a pixel lies inside the block. */
  lemma PixelInBlock(width: int, height: int, bitCount: int, x: int, row: int)
    requires Supported(bitCount) && 0 <= x < width && 0 <= row < height
    ensures 0 <= Offset(width, bitCount, x, row)
    ensures Offset(width, bitCount, x, row) + bitCount / 8 <= (row + 1) * Stride(width, bitCount)
    ensures (row + 1) * Stride(width, bitCount) <= height * Stride(width, bitCount)
  {
    var s, p := Stride(width, bitCount), bitCount / 8;
    StrideIsLeast(width, bitCount);
    assert (x + 1) * p <= width * p by { Scale(x + 1, width, p); }
    assert (x + 1) * p == x * p + p && (row + 1) * s == row * s + s;
    Scale(row + 1, height, s);
    Scale(0, row, s);
    Scale(0, x, p);
  }

  lemma Scale(a: int, b: int, k: int)
    requires a <= b && 0 <= k
    ensures a * k <= b * k
  {
    var d := b - a;
    assert d * k >= 0;
    assert b * k == a * k + d * k;
  }

  /** Distinct pixels occupy disjoint bytes. */
  lemma PixelsDisjoint(width: int, height: int, bitCount: int, x: int, row: int, x': int, row': int)
    requires Supported(bitCount) && 0 <= x < width && 0 <= row < height && 0 <= x' < width && 0 <= row' < height
    requires row < row' || (row == row' && x < x')
    ensures Offset(width, bitCount, x, row) + bitCount / 8 <= Offset(width, bitCount, x', row')
  {
    var s, p := Stride(width, bitCount), bitCount / 8;
    PixelInBlock(width, height, bitCount, x, row);
    PixelInBlock(width, height, bitCount, x', row');
    if row < row' {
      Scale(row + 1, row', s);
      Scale(0, x', p);
    } else {
      Scale(x + 1, x', p);
      assert (x + 1) * p == x * p + p;
    }
  }

  // ---------- Conversion ----------

  function PixelAt(block: Bytes, bitCount: int, offset: int): Rgba
    requires Supported(bitCount) && 0 <= offset && offset + bitCount / 8 <= |block|
  {
    Rgba(block[offset + 2], block[offset + 1], block[offset], if bitCount == 24 then 255 else block[offset + 3])
  }

  /** The colour of image pixel (x, y): the block's rows run from the bottom. */
  function Flipped(block: Bytes, width: int, height: int, bitCount: int, x: int, y: int): Rgba
    requires Supported(bitCount) && 0 <= x < width && 0 <= y < height && BlockSize(width, height, bitCount) <= |block|
  {
    PixelInBlock(width, height, bitCount, x, height - 1 - y);
    PixelAt(block, bitCount, Offset(width, bitCount, x, height - 1 - y))
  }

  /** The bounds of `image.Rect(0, 0, width, height)`: the canonical rectangle between the origin and the corner. */
  function Low(corner: int): int { if corner < 0 then corner else 0 }

  function High(corner: int): int { if corner < 0 then 0 else corner }

  /**
   The row and pixel loops of `convertDIBtoPNG`; null is the unsupported-depth error. `SetRGBA` sets a pixel
   inside the image's bounds and does nothing outside. A top-down bitmap has all its bounds at or below row 0.
   */
  method ConvertDib(block: Bytes, width: int, height: int, bitCount: int) returns (img: array2?<Rgba>)
    requires Supported(bitCount) && width > 0 ==> BlockSize(width, height, bitCount) <= |block|
    ensures img == null <==> !Supported(bitCount)
    ensures img != null ==> img.Length0 == Abs(width) && img.Length1 == Abs(height)
    ensures img != null && width > 0 && height > 0 ==>
              forall x, y :: 0 <= x < width && 0 <= y < height ==>
                img[x, y] == Flipped(block, width, height, bitCount, x, y)
    ensures img != null && (width <= 0 || height <= 0) ==>
              forall x, y :: 0 <= x < Abs(width) && 0 <= y < Abs(height) ==> img[x, y] == BLANK
  {
    if bitCount != 24 && bitCount != 32 { return null; }
    var minX, maxX, minY, maxY := Low(width), High(width), Low(height), High(height);
    img := new Rgba[maxX - minX, maxY - minY]((x, y) => BLANK);
    var stride := Stride(width, bitCount);
    var isBottomUp := height > 0;
    var absHeight := Abs(height);
    for y := 0 to absHeight
      invariant img.Length0 == maxX - minX && img.Length1 == maxY - minY
      invariant height > 0 && width > 0 ==>
                  forall x, j :: 0 <= x < width && 0 <= j < y ==>
                    img[x, j] == Flipped(block, width, height, bitCount, x, j)
      invariant height <= 0 || width <= 0 ==>
                  forall i, j :: 0 <= i < img.Length0 && 0 <= j < img.Length1 ==> img[i, j] == BLANK
    {
      var srcY := if isBottomUp then absHeight - y - 1 else y;
      var srcRow := srcY * stride;
      var x := 0;
      while x < width
        invariant 0 <= x && (width > 0 ==> x <= width)
        invariant img.Length0 == maxX - minX && img.Length1 == maxY - minY
        invariant height > 0 && width > 0 ==>
                    forall i, j :: 0 <= i < width && 0 <= j < y ==>
                      img[i, j] == Flipped(block, width, height, bitCount, i, j)
        invariant height > 0 && width > 0 ==>
                    forall i :: 0 <= i < x ==> img[i, y] == Flipped(block, width, height, bitCount, i, y)
        invariant height <= 0 || width <= 0 ==>
                    forall i, j :: 0 <= i < img.Length0 && 0 <= j < img.Length1 ==> img[i, j] == BLANK
      {
        PixelInBlock(width, absHeight, bitCount, x, srcY);
        var at := srcRow + x * (bitCount / 8);
        var b, g, r := block[at], block[at + 1], block[at + 2];
        var a := if bitCount == 24 then 255 else block[at + 3];
        if minX <= x < maxX && minY <= y < maxY { img[x - minX, y - minY] := Rgba(r, g, b, a); }
        x := x + 1;
      }
    }
  }

  // ---------- A reference encoder ----------

  type Picture = (int, int) -> Rgba

  function Channel(c: Rgba, k: int): Byte {
    if k == 0 then c.b else if k == 1 then c.g else if k == 2 then c.r else c.a
  }

  /** Byte `i` of the bottom-up block that shows `pic`; padding is zero. */
  function BlockByte(pic: Picture, width: int, height: int, bitCount: int, i: int): Byte
    requires Supported(bitCount) && Stride(width, bitCount) > 0
  {
    var row, column := i / Stride(width, bitCount), i % Stride(width, bitCount);
    if column >= RowBytes(width, bitCount) then 0
    else Channel(pic(column / (bitCount / 8), height - 1 - row), column % (bitCount / 8))
  }

  function EncodeDib(pic: Picture, width: nat, height: nat, bitCount: int): Bytes
    requires Supported(bitCount) && width > 0
  {
    StrideIsLeast(width, bitCount);
    seq(BlockSize(width, height, bitCount), i requires 0 <= i => BlockByte(pic, width, height, bitCount, i))
  }

  lemma DivideBack(row: int, column: int, stride: int)
    requires 0 <= column < stride
    ensures (row * stride + column) / stride == row && (row * stride + column) % stride == column
  {
    var n := row * stride + column;
    var q, r := n / stride, n % stride;
    assert n == q * stride + r;
    assert (q + 1) * stride == q * stride + stride && (row + 1) * stride == row * stride + stride;
    if q < row { Scale(q + 1, row, stride); }
    if q > row { Scale(row + 1, q, stride); }
  }

  lemma EncodedByte(pic: Picture, width: nat, height: nat, bitCount: int, x: int, row: int, k: int)
    requires Supported(bitCount) && 0 <= x < width && 0 <= row < height && 0 <= k < bitCount / 8
    ensures 0 <= Offset(width, bitCount, x, row) + k < BlockSize(width, height, bitCount)
    ensures EncodeDib(pic, width, height, bitCount)[Offset(width, bitCount, x, row) + k] ==
            Channel(pic(x, height - 1 - row), k)
  {
    var s, p := Stride(width, bitCount), bitCount / 8;
    PixelInBlock(width, height, bitCount, x, row);
    StrideIsLeast(width, bitCount);
    Scale(x + 1, width, p);
    assert (x + 1) * p == x * p + p;
    Scale(0, x, p);
    DivideBack(row, x * p + k, s);
    DivideBack(x, k, p);
    assert Offset(width, bitCount, x, row) + k == row * s + (x * p + k);
  }

  /** Converting what the reference encoder wrote gives the picture back, upright, every pixel once. */
  lemma ConversionShowsThePicture(pic: Picture, width: nat, height: nat, bitCount: int, x: int, y: int)
    requires Supported(bitCount) && 0 <= x < width && 0 <= y < height
    requires bitCount == 24 ==> pic(x, y).a == 255
    ensures Flipped(EncodeDib(pic, width, height, bitCount), width, height, bitCount, x, y) == pic(x, y)
  {
    hide EncodeDib, Offset, Stride;
    var row := height - 1 - y;
    PixelInBlock(width, height, bitCount, x, row);
    EncodedByte(pic, width, height, bitCount, x, row, 0);
    EncodedByte(pic, width, height, bitCount, x, row, 1);
    EncodedByte(pic, width, height, bitCount, x, row, 2);
    if bitCount == 32 { EncodedByte(pic, width, height, bitCount, x, row, 3); }
  }
}
