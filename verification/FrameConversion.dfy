/**
  Conversion of a decoded I420 picture to BGRA (frame_conversion.cpp): the integer BT.601 matrix, written row by row
  into a buffer that is used again and again.
  */
module FrameConversion {
  import opened Wrappers
  import opened Text

  type byte = x: int | 0 <= x < 256

  const ALPHA: byte := 255
  const INT_LIMIT: int := 0x8000_0000

  // ---------------------------------------------------------------- one pixel

  function ClampToByte(value: int): byte {
    if value < 0 then 0 else if value > 255 then 255 else value
  }

  function Luma(y: byte): nat {
    if y < 16 then 0 else y - 16
  }

  function Red(y: byte, u: byte, v: byte): byte {
    ClampToByte((298 * Luma(y) + 409 * (v - 128) + 128) / 256)
  }

  function Green(y: byte, u: byte, v: byte): byte {
    ClampToByte((298 * Luma(y) - 100 * (u - 128) - 208 * (v - 128) + 128) / 256)
  }

  function Blue(y: byte, u: byte, v: byte): byte {
    ClampToByte((298 * Luma(y) + 516 * (u - 128) + 128) / 256)
  }

  /** The bytes of a pixel in memory order: blue, green, red, alpha. */
  function Channel(y: byte, u: byte, v: byte, k: int): byte {
    if k == 0 then Blue(y, u, v) else if k == 1 then Green(y, u, v) else if k == 2 then Red(y, u, v) else ALPHA
  }

  // The matrix that the integers approximate, from the luma weights of BT.601: limited range, 219 steps of luma and
  // 224 of chroma, to full-range RGB.
  const KR: real := 0.299
  const KB: real := 0.114
  const KG: real := 1.0 - KR - KB
  const LUMA_GAIN: real := 255.0 / 219.0
  const CHROMA_GAIN: real := 255.0 / 224.0
  const RED_FROM_V: real := CHROMA_GAIN * 2.0 * (1.0 - KR)
  const GREEN_FROM_U: real := CHROMA_GAIN * 2.0 * (1.0 - KB) * KB / KG
  const GREEN_FROM_V: real := CHROMA_GAIN * 2.0 * (1.0 - KR) * KR / KG
  const BLUE_FROM_U: real := CHROMA_GAIN * 2.0 * (1.0 - KB)

  function Clamped(value: real): real {
    if value < 0.0 then 0.0 else if value > 255.0 then 255.0 else value
  }

  /** One row of the matrix, applied to luma and the two chroma differences. */
  function Mixed(a: real, x: int, b: real, y: int, c: real, z: int): real {
    a * (x as real) + b * (y as real) + c * (z as real)
  }

  function ExactRed(y: byte, u: byte, v: byte): real {
    Clamped(Mixed(LUMA_GAIN, if y < 16 then 0 else y - 16, 0.0, u - 128, RED_FROM_V, v - 128))
  }

  function ExactGreen(y: byte, u: byte, v: byte): real {
    Clamped(Mixed(LUMA_GAIN, if y < 16 then 0 else y - 16, -GREEN_FROM_U, u - 128, -GREEN_FROM_V, v - 128))
  }

  function ExactBlue(y: byte, u: byte, v: byte): real {
    Clamped(Mixed(LUMA_GAIN, if y < 16 then 0 else y - 16, BLUE_FROM_U, u - 128, 0.0, v - 128))
  }

  predicate Near(value: byte, exact: real) {
    -1.0 < value as real - exact < 1.0
  }

  /** `(scaled + 128) >> 8` rounds a number of 256ths to the nearest integer, and clamping brings nothing further apart. */
  lemma RoundedNear(scaled: int, exact: real)
    requires -0.5 < scaled as real / 256.0 - exact < 0.5
    ensures Near(ClampToByte((scaled + 128) / 256), Clamped(exact))
  {
    var q := (scaled + 128) / 256;
    assert 256 * q <= scaled + 128 < 256 * q + 256;
    assert -0.5 <= q as real - scaled as real / 256.0 <= 0.5;
  }

  /** An integer weight of 256ths and an exact gain that differ by little, applied to a number of limited size. */
  lemma Weighed(weight: int, gain: real, error: real, x: int, size: int)
    requires -error <= weight as real / 256.0 - gain <= error && -size <= x <= size
    ensures -error * (size as real) <= (weight * x) as real / 256.0 - gain * (x as real) <= error * (size as real)
  {
    var apart, number := weight as real / 256.0 - gain, x as real;
    assert (weight * x) as real == (weight as real) * number;
    assert (weight as real) * number / 256.0 - gain * number == apart * number;
    if x >= 0 {
      Bounded(apart, error, number, size as real);
    } else {
      Bounded(-apart, error, -number, size as real);
      assert (-apart) * (-number) == apart * number;
    }
  }

  lemma Bounded(apart: real, error: real, number: real, size: real)
    requires -error <= apart <= error && 0.0 <= number <= size
    ensures -error * size <= apart * number <= error * size
  {
    Product(-error, apart, number);
    Product(apart, error, number);
    Product(number, size, error);
    assert (-error) * number == -(error * number);
    assert error * number == number * error && error * size == size * error;
  }

  lemma Product(low: real, high: real, factor: real)
    requires low <= high && 0.0 <= factor
    ensures low * factor <= high * factor
  {
  }

  /** A row of the matrix in 256ths against the exact row; `eu` and `ev` bound how far the chroma weights are off. */
  lemma MixedNear(m: int, gain: real, x: int, n: int, fromU: real, eu: real, y: int, k: int, fromV: real, ev: real, z: int)
    requires -0.0004 <= m as real / 256.0 - gain <= 0.0004 && -239 <= x <= 239
    requires -eu <= n as real / 256.0 - fromU <= eu && -128 <= y <= 128
    requires -ev <= k as real / 256.0 - fromV <= ev && -128 <= z <= 128
    requires eu + ev <= 0.0022
    ensures -0.5 < (m * x + n * y + k * z) as real / 256.0 - Mixed(gain, x, fromU, y, fromV, z) < 0.5
  {
    Weighed(m, gain, 0.0004, x, 239);
    Weighed(n, fromU, eu, y, 128);
    Weighed(k, fromV, ev, z, 128);
    assert (m * x + n * y + k * z) as real == (m * x) as real + (n * y) as real + (k * z) as real;
  }

  lemma Gains()
    ensures -0.0004 <= 298.0 / 256.0 - LUMA_GAIN <= 0.0004
    ensures -0.0017 <= 409.0 / 256.0 - RED_FROM_V <= 0.0017
    ensures -0.0017 <= -100.0 / 256.0 + GREEN_FROM_U <= 0.0017
    ensures -0.0005 <= -208.0 / 256.0 + GREEN_FROM_V <= 0.0005
    ensures -0.0017 <= 516.0 / 256.0 - BLUE_FROM_U <= 0.0017
  {
  }

  /** Every channel of every pixel is within one of what the BT.601 matrix gives exactly. */
  lemma ConvertsBt601(y: byte, u: byte, v: byte)
    ensures Near(Red(y, u, v), ExactRed(y, u, v))
    ensures Near(Green(y, u, v), ExactGreen(y, u, v))
    ensures Near(Blue(y, u, v), ExactBlue(y, u, v))
  {
    hide Near, ClampToByte, Clamped, Mixed;
    var luma, du, dv := Luma(y), u - 128, v - 128;
    Gains();
    MixedNear(298, LUMA_GAIN, luma, 0, 0.0, 0.0, du, 409, RED_FROM_V, 0.0017, dv);
    RoundedNear(298 * luma + 409 * dv, Mixed(LUMA_GAIN, luma, 0.0, du, RED_FROM_V, dv));
    MixedNear(298, LUMA_GAIN, luma, -100, -GREEN_FROM_U, 0.0017, du, -208, -GREEN_FROM_V, 0.0005, dv);
    RoundedNear(298 * luma - 100 * du - 208 * dv, Mixed(LUMA_GAIN, luma, -GREEN_FROM_U, du, -GREEN_FROM_V, dv));
    MixedNear(298, LUMA_GAIN, luma, 516, BLUE_FROM_U, 0.0017, du, 0, 0.0, 0.0, dv);
    RoundedNear(298 * luma + 516 * du, Mixed(LUMA_GAIN, luma, BLUE_FROM_U, du, 0.0, dv));
  }

  // ---------------------------------------------------------------- the picture

  /** What the decoder hands out; a missing plane is a null pointer. */
  datatype Picture = Picture(
    y: Option<seq<byte>>, u: Option<seq<byte>>, v: Option<seq<byte>>,
    yStride: int, uvStride: int, width: int, height: int)

  function ChromaWidth(width: int): int {
    width / 2 + width % 2
  }

  predicate WellFormed(p: Picture) {
    && p.y.Some? && p.u.Some? && p.v.Some?
    && p.width > 0 && p.height > 0 && p.yStride >= p.width && p.uvStride >= ChromaWidth(p.width)
  }

  /** The row length in bytes fits in 32 bits, and the whole length fits in `size_t`. */
  predicate SizeFits(p: Picture)
    requires p.width > 0
  {
    p.width <= (UINT_LIMIT - 1) / 4 && p.height <= (SIZE_LIMIT - 1) / (p.width * 4)
  }

  /** Row `r` of a plane has a byte in column `c`. */
  predicate InPlane(plane: seq<byte>, stride: int, r: int, c: int) {
    0 <= r * stride + c < |plane|
  }

  /** The planes have as many bytes as their metadata says; the decoder's promise. */
  predicate PlanesCover(p: Picture) {
    && p.y.Some? && p.u.Some? && p.v.Some?
    && (forall r, c | 0 <= r < p.height && 0 <= c < p.width :: InPlane(p.y.value, p.yStride, r, c))
    && (forall r, c | 0 <= r < p.height && 0 <= c < p.width ::
          InPlane(p.u.value, p.uvStride, r / 2, c / 2) && InPlane(p.v.value, p.uvStride, r / 2, c / 2))
  }

  lemma Covered(p: Picture, r: int, c: int)
    requires PlanesCover(p) && 0 <= r < p.height && 0 <= c < p.width
    ensures p.y.Some? && p.u.Some? && p.v.Some? && InPlane(p.y.value, p.yStride, r, c)
    ensures InPlane(p.u.value, p.uvStride, r / 2, c / 2) && InPlane(p.v.value, p.uvStride, r / 2, c / 2)
  {
  }

  /** Channel `k` of the pixel in row `r` and column `c`, whose chroma it shares with its neighbours. */
  function PixelByte(p: Picture, r: int, c: int, k: int): byte
    requires PlanesCover(p) && 0 <= r < p.height && 0 <= c < p.width
  {
    Covered(p, r, c);
    var luma, chroma := r * p.yStride + c, r / 2 * p.uvStride + c / 2;
    Channel(p.y.value[luma], p.u.value[chroma], p.v.value[chroma], k)
  }

  function ByteAt(p: Picture, i: nat): byte
    requires PlanesCover(p) && p.width > 0 && i < p.width * 4 * p.height
  {
    RowAndColumn(p.width, p.height, i);
    PixelByte(p, i / (p.width * 4), i % (p.width * 4) / 4, i % 4)
  }

  lemma Multiplied(a: int, b: int, d: int)
    requires a <= b && 0 <= d
    ensures a * d <= b * d
  {
  }

  lemma RowOf(stride: int, height: int, i: nat)
    requires stride > 0 && i < stride * height
    ensures 0 <= i / stride < height && 0 <= i % stride < stride
  {
    var q, m := i / stride, i % stride;
    assert i == q * stride + m;
    assert (height - q) * stride == stride * height - q * stride;
    if height - q <= 0 {
      Multiplied(height - q, 0, stride);
    }
  }

  lemma RowAndColumn(width: int, height: int, i: nat)
    requires width > 0 && i < width * 4 * height
    ensures 0 <= i / (width * 4) < height && 0 <= i % (width * 4) / 4 < width
  {
    RowOf(width * 4, height, i);
  }

  /** The BGRA bytes of the picture, rows one behind the other without padding. */
  function Converted(p: Picture): (pixels: seq<byte>)
    requires PlanesCover(p) && WellFormed(p)
    ensures |pixels| == p.width * 4 * p.height
  {
    seq(p.width * 4 * p.height, i requires 0 <= i < p.width * 4 * p.height => ByteAt(p, i))
  }

  lemma Position(width: int, height: int, r: int, c: int, k: int)
    requires width > 0 && 0 <= r < height && 0 <= c < width && 0 <= k < 4
    ensures var i := r * (width * 4) + 4 * c + k;
      0 <= i < width * 4 * height && i / (width * 4) == r && i % (width * 4) / 4 == c && i % 4 == k
  {
    var stride := width * 4;
    var i := r * stride + 4 * c + k;
    DivModUnique(i, stride, r, 4 * c + k);
    assert (r + 1) * stride <= height * stride;
    assert i == 4 * (r * width + c) + k;
    DivModUnique(i, 4, r * width + c, k);
  }

  lemma Unique(d: int, q: int, m: int, q': int, m': int)
    requires q * d + m == q' * d + m' && 0 <= m < d && 0 <= m' < d
    ensures q == q' && m == m'
  {
    assert (q' - q) * d == q' * d - q * d;
    if q' - q >= 1 {
      Multiplied(1, q' - q, d);
    } else if q' - q <= -1 {
      Multiplied(q' - q, -1, d);
    }
  }

  lemma DivModUnique(i: int, d: int, q: int, m: int)
    requires d > 0 && i == q * d + m && 0 <= m < d
    ensures i / d == q && i % d == m
  {
    Unique(d, q, m, i / d, i % d);
  }

  /** Byte `k` of column `c` in row `r` is channel `k` of that pixel of the picture. */
  lemma ConvertedAt(p: Picture, r: int, c: int, k: int)
    requires PlanesCover(p) && WellFormed(p) && 0 <= r < p.height && 0 <= c < p.width && 0 <= k < 4
    ensures var i := r * (p.width * 4) + 4 * c + k; 0 <= i < |Converted(p)| && Converted(p)[i] == PixelByte(p, r, c, k)
  {
    Position(p.width, p.height, r, c, k);
  }

  /**
    The four bytes of the pixel in row `r` and column `c`: blue, green and red are within one of the exact conversion of
    the luma sample of that pixel and of the chroma samples that it shares with its neighbours, and the last is 255.
    */
  lemma ConvertedPixel(p: Picture, r: int, c: int)
    requires PlanesCover(p) && WellFormed(p) && 0 <= r < p.height && 0 <= c < p.width
    ensures var i, luma, chroma := r * (p.width * 4) + 4 * c, r * p.yStride + c, r / 2 * p.uvStride + c / 2;
      && 0 <= i && i + 3 < |Converted(p)|
      && 0 <= luma < |p.y.value| && 0 <= chroma < |p.u.value| && chroma < |p.v.value|
      && var y, u, v := p.y.value[luma], p.u.value[chroma], p.v.value[chroma];
      && Near(Converted(p)[i], ExactBlue(y, u, v))
      && Near(Converted(p)[i + 1], ExactGreen(y, u, v))
      && Near(Converted(p)[i + 2], ExactRed(y, u, v))
      && Converted(p)[i + 3] == 255
  {
    hide Near, ExactBlue, ExactGreen, ExactRed, Blue, Green, Red, Converted;
    ConvertedAt(p, r, c, 0);
    ConvertedAt(p, r, c, 1);
    ConvertedAt(p, r, c, 2);
    ConvertedAt(p, r, c, 3);
    Covered(p, r, c);
    ConvertsBt601(p.y.value[r * p.yStride + c], p.u.value[r / 2 * p.uvStride + c / 2], p.v.value[r / 2 * p.uvStride + c / 2]);
  }

  /**
    Accepted are exactly the pictures with all planes, a positive size, luma rows no shorter than the width, and chroma
    rows no shorter than half of it.
    */
  lemma WellFormedExactly(p: Picture)
    ensures WellFormed(p) <==>
      && p.y != None && p.u != None && p.v != None && p.width >= 1 && p.height >= 1
      && p.width <= p.yStride && p.width <= 2 * p.uvStride
  {
  }

  /** For a width and a height that fit in an `int`, the size fits exactly up to a width of 2^30 - 1. */
  lemma SizeFitsExactly(p: Picture)
    requires 0 < p.width < INT_LIMIT && 0 < p.height < INT_LIMIT
    ensures SizeFits(p) <==> p.width < 0x4000_0000
  {
    if p.width < 0x4000_0000 {
      var stride := p.width * 4;
      Multiplied(stride, UINT_LIMIT, INT_LIMIT);
      AtLeast(SIZE_LIMIT - 1, stride, INT_LIMIT - 1);
    }
  }

  lemma AtLeast(total: nat, d: int, n: nat)
    requires d > 0 && n * d <= total
    ensures total / d >= n
  {
    var q, m := total / d, total % d;
    assert total == q * d + m;
    assert (q + 1 - n) * d == q * d + d - n * d;
    if q + 1 - n <= 0 {
      Multiplied(q + 1 - n, 0, d);
    }
  }

  // ---------------------------------------------------------------- the conversion in place

  const BAD_METADATA: string := "OpenH264 returned invalid I420 plane metadata"
  const BAD_SIZE: string := "Decoded frame dimensions overflow the BGRA buffer size"

  class DecodedFrame {
    var pixels: array<byte>
    var width: nat
    var height: nat
    var stride: nat
    var timestampUs: nat

    constructor ()
      ensures pixels.Length == 0 && width == 0 && height == 0 && stride == 0 && timestampUs == 0
      ensures fresh(pixels)
    {
      pixels := new byte[0];
      width, height, stride, timestampUs := 0, 0, 0, 0;
    }

    /** The length of the pixel buffer is that of the rows. */
    predicate Shaped()
      reads this
    {
      pixels.Length == stride * height
    }
  }

  /** `std::vector::resize`: what was there stays there, also from an earlier and longer frame. */
  method Resize(output: DecodedFrame, length: nat)
    modifies output`pixels
    ensures output.pixels.Length == length
    ensures output.pixels == old(output.pixels) || fresh(output.pixels)
    ensures forall i | 0 <= i < length && i < old(output.pixels.Length) :: output.pixels[i] == old(output.pixels[i])
  {
    if output.pixels.Length != length {
      var before := output.pixels;
      output.pixels := new byte[length](i requires 0 <= i reads before => if i < before.Length then before[i] else 0);
    }
  }

  method ConvertI420ToBgra(p: Picture, timestampUs: nat, output: DecodedFrame) returns (error: string)
    requires WellFormed(p) ==> PlanesCover(p)
    modifies output, output.pixels
    ensures error == "" <==> WellFormed(p) && SizeFits(p)
    ensures error == "OpenH264 returned invalid I420 plane metadata" <==> !WellFormed(p)
    ensures error == "Decoded frame dimensions overflow the BGRA buffer size" <==> WellFormed(p) && !SizeFits(p)
    ensures error != "" ==> unchanged(output) && unchanged(output.pixels)
    ensures error == "" ==>
      && output.pixels[..] == Converted(p) && (output.pixels == old(output.pixels) || fresh(output.pixels))
      && output.width == p.width && output.height == p.height && output.stride == p.width * 4
      && output.timestampUs == timestampUs && output.Shaped()
  {
    if !WellFormed(p) {
      return BAD_METADATA;
    }
    if p.width > (UINT_LIMIT - 1) / 4 || p.height > (SIZE_LIMIT - 1) / (p.width * 4) {
      return BAD_SIZE;
    }
    hide WellFormed, PlanesCover, ByteAt, Offset, InPlane;
    var outputStride := p.width * 4;
    var outputLength := outputStride * p.height;
    Resize(output, outputLength);
    var pixels := output.pixels;
    var row := 0;
    OffsetEnds(p.height, outputStride);
    while row < p.height
      invariant 0 <= row <= p.height && output.pixels == pixels && pixels.Length == outputLength
      invariant 0 <= Offset(row, outputStride) <= outputLength
      invariant forall i | 0 <= i < Offset(row, outputStride) :: pixels[i] == ByteAt(p, i)
    {
      OffsetNext(row, p.height, outputStride);
      ConvertRow(p, row, pixels);
      row := row + 1;
    }
    output.width, output.height, output.stride := p.width, p.height, outputStride;
    output.timestampUs := timestampUs;
    assert output.pixels[..] == Converted(p);
    error := "";
  }

  /** Where a row begins. */
  function Offset(row: int, stride: int): int {
    row * stride
  }

  lemma OffsetEnds(height: int, stride: int)
    ensures Offset(0, stride) == 0 && Offset(height, stride) == stride * height
  {
  }

  lemma OffsetNext(row: int, height: int, stride: int)
    requires 0 <= row < height && 0 <= stride
    ensures 0 <= Offset(row, stride) && Offset(row, stride) + stride == Offset(row + 1, stride) <= stride * height
  {
    assert (row + 1) * stride <= height * stride;
  }

  /** The samples of the pixel in the row and column: its own luma, and the chroma of its two-by-two block. */
  method ReadSamples(p: Picture, row: int, column: int) returns (y: byte, u: byte, v: byte)
    requires WellFormed(p) && PlanesCover(p) && 0 <= row < p.height && 0 <= column < p.width
    ensures var i := Offset(row, p.width * 4) + 4 * column;
      && 0 <= i && i + 3 < p.width * 4 * p.height
      && ByteAt(p, i) == Blue(y, u, v) && ByteAt(p, i + 1) == Green(y, u, v)
      && ByteAt(p, i + 2) == Red(y, u, v) && ByteAt(p, i + 3) == ALPHA
  {
    hide Blue, Green, Red, ByteAt, Offset;
    PixelAt(p, row, column);
    y := p.y.value[row * p.yStride + column];
    u := p.u.value[row / 2 * p.uvStride + column / 2];
    v := p.v.value[row / 2 * p.uvStride + column / 2];
  }

  /** The inner loop: one row of pixels through a pointer that moves on by four bytes. */
  method ConvertRow(p: Picture, row: int, pixels: array<byte>)
    requires WellFormed(p) && PlanesCover(p) && 0 <= row < p.height && pixels.Length == p.width * 4 * p.height
    requires 0 <= Offset(row, p.width * 4) && Offset(row, p.width * 4) + p.width * 4 <= pixels.Length
    modifies pixels
    ensures forall i | 0 <= i < Offset(row, p.width * 4) :: pixels[i] == old(pixels[i])
    ensures forall i | Offset(row, p.width * 4) <= i < Offset(row, p.width * 4) + p.width * 4 :: pixels[i] == ByteAt(p, i)
  {
    hide ByteAt, Offset, PlanesCover, Blue, Green, Red, InPlane;
    var first := Offset(row, p.width * 4);
    var destination := first;
    var column := 0;
    while column < p.width
      invariant 0 <= column <= p.width && destination == first + 4 * column
      invariant forall i | 0 <= i < first :: pixels[i] == old(pixels[i])
      invariant forall i | first <= i < destination :: i < pixels.Length && pixels[i] == ByteAt(p, i)
    {
      Covered(p, row, column);
      var y, u, v := ReadSamples(p, row, column);
      pixels[destination] := Blue(y, u, v);
      pixels[destination + 1] := Green(y, u, v);
      pixels[destination + 2] := Red(y, u, v);
      pixels[destination + 3] := ALPHA;
      destination := destination + 4;
      column := column + 1;
    }
  }

  lemma PixelAt(p: Picture, r: int, c: int)
    requires PlanesCover(p) && WellFormed(p) && 0 <= r < p.height && 0 <= c < p.width
    ensures var i, luma, chroma := Offset(r, p.width * 4) + 4 * c, r * p.yStride + c, r / 2 * p.uvStride + c / 2;
      && 0 <= i && i + 3 < p.width * 4 * p.height
      && 0 <= luma < |p.y.value| && 0 <= chroma < |p.u.value| && chroma < |p.v.value|
      && var y, u, v := p.y.value[luma], p.u.value[chroma], p.v.value[chroma];
      && ByteAt(p, i) == Blue(y, u, v) && ByteAt(p, i + 1) == Green(y, u, v)
      && ByteAt(p, i + 2) == Red(y, u, v) && ByteAt(p, i + 3) == ALPHA
  {
    hide Blue, Green, Red;
    Covered(p, r, c);
    Position(p.width, p.height, r, c, 0);
    Position(p.width, p.height, r, c, 1);
    Position(p.width, p.height, r, c, 2);
    Position(p.width, p.height, r, c, 3);
  }
}
