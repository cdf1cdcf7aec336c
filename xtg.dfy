/** The XTG frame format: a 1-bit bitmap stored row by row, top to bottom,
    eight pixels to a byte with the leftmost in bit 7. A set bit is a light
    pixel. */
module Xtg {
  import opened Results
  import opened Bytes
  import opened FrameFormat

  /** A monochrome pixel: 1 for light, 0 for dark. */
  type Bit = b: int | 0 <= b < 2

  /** `encode`'s default threshold. */
  const DEFAULT_THRESHOLD: int := 128

  /** The non-dithering branch of `_convert_to_monochrome` for one pixel:
      light at or above the threshold, then the optional `1 - result`. */
  function Monochrome(gray: byte, threshold: int, invert: bool): Bit {
    var b := if gray as int >= threshold then 1 else 0;
    if invert then 1 - b else b
  }

  /** A pixel is light exactly when it reaches the threshold, or, inverted,
      exactly when it does not. */
  lemma MonochromeIsThreshold(gray: byte, threshold: int, invert: bool)
    ensures Monochrome(gray, threshold, invert) == 1 <==> (gray as int >= threshold) != invert
  {
  }

  function MonochromeGrid(gray: seq<seq<byte>>, threshold: int, invert: bool): (p: seq<seq<Bit>>)
    ensures |p| == |gray| && forall y :: 0 <= y < |gray| ==> |p[y]| == |gray[y]|
    ensures forall y, x :: 0 <= y < |gray| && 0 <= x < |gray[y]| ==> p[y][x] == Monochrome(gray[y][x], threshold, invert)
  {
    seq(|gray|, y requires 0 <= y < |gray| =>
      seq(|gray[y]|, x requires 0 <= x < |gray[y]| => Monochrome(gray[y][x], threshold, invert)))
  }

  /** `(width + 7) // 8`. */
  function BytesPerRow(width: nat): nat {
    (width + 7) / 8
  }

  /** The eight pixels of byte `b` of row `y`; columns past the width are
      clear. */
  function ByteBits(p: seq<seq<Bit>>, width: nat, height: nat, y: nat, b: nat): (bits: seq<bool>)
    requires IsGrid(p, width, height) && y < height
    ensures |bits| == 8
  {
    seq(8, i requires 0 <= i < 8 => 8 * b + i < width && p[y][8 * b + i] == 1)
  }

  /** Byte `b` of row `y` of the bitmap. */
  function RowByte(p: seq<seq<Bit>>, width: nat, height: nat, y: nat, b: nat): byte
    requires IsGrid(p, width, height) && y < height
  {
    ToByte(PackMsb(ByteBits(p, width, height, y, b), 8))
  }

  /** The bytes of row `y`, left to right. */
  function Row(p: seq<seq<Bit>>, width: nat, height: nat, y: nat): (r: seq<byte>)
    requires IsGrid(p, width, height) && y < height
    ensures |r| == BytesPerRow(width)
  {
    seq(BytesPerRow(width), b requires 0 <= b < BytesPerRow(width) => RowByte(p, width, height, y, b))
  }

  function Rows(p: seq<seq<Bit>>, width: nat, height: nat): (rs: seq<seq<byte>>)
    requires IsGrid(p, width, height)
    ensures |rs| == height
    ensures forall y :: 0 <= y < height ==> |rs[y]| == BytesPerRow(width)
  {
    seq(height, y requires 0 <= y < height => Row(p, width, height, y))
  }

  /** The whole bitmap, top row first. */
  function Bitmap(p: seq<seq<Bit>>, width: nat, height: nat): seq<byte>
    requires IsGrid(p, width, height)
  {
    Concat(Rows(p, width, height))
  }

  /** Where byte `b` of row `y` is: `y * bytes_per_row + b`. */
  function RowOffset(width: nat, y: nat, b: nat): nat {
    BytesPerRow(width) * y + b
  }

  /** The bitmap holds `ceil(width / 8) * height` bytes, and byte `b` of
      row `y` is at `RowOffset(width, y, b)`. */
  lemma BitmapAt(p: seq<seq<Bit>>, width: nat, height: nat, y: nat, b: nat)
    requires IsGrid(p, width, height) && y < height && b < BytesPerRow(width)
    ensures |Bitmap(p, width, height)| == BytesPerRow(width) * height
    ensures RowOffset(width, y, b) < |Bitmap(p, width, height)|
    ensures Bitmap(p, width, height)[RowOffset(width, y, b)] == RowByte(p, width, height, y, b)
  {
    UniformByte(Rows(p, width, height), BytesPerRow(width), y, b);
  }

  lemma BitmapSize(p: seq<seq<Bit>>, width: nat, height: nat)
    requires IsGrid(p, width, height)
    ensures |Bitmap(p, width, height)| == BytesPerRow(width) * height
  {
    var rs := Rows(p, width, height);
    TotalSizeUniform(rs, BytesPerRow(width), height);
    assert rs[..height] == rs;
  }

  /** `_encode_bitmap`. */
  method EncodeBitmap(p: seq<seq<Bit>>, width: nat, height: nat) returns (bitmap: seq<byte>)
    requires IsGrid(p, width, height)
    ensures bitmap == Bitmap(p, width, height)
  {
    ghost var rs := Rows(p, width, height);
    bitmap := [];
    for y := 0 to height
      invariant bitmap == Concat(rs[..y])
    {
      ghost var done := bitmap;
      ghost var row := Row(p, width, height, y);
      for b := 0 to BytesPerRow(width)
        invariant bitmap == done + row[..b]
      {
        var byteVal := PackByte(p, width, height, y, b);
        assert row[..b + 1] == row[..b] + [byteVal];
        bitmap := bitmap + [byteVal];
      }
      assert row[..BytesPerRow(width)] == rs[y];
      ConcatSnoc(rs[..y], rs[y]);
      assert rs[..y] + [rs[y]] == rs[..y + 1];
    }
    assert rs[..height] == rs;
  }

  /** The innermost loop of `_encode_bitmap`: byte `b` of row `y`. */
  method PackByte(p: seq<seq<Bit>>, width: nat, height: nat, y: nat, b: nat) returns (byteVal: byte)
    requires IsGrid(p, width, height) && y < height
    ensures byteVal == RowByte(p, width, height, y, b)
  {
    var acc: bv8 := 0;
    ghost var bits := ByteBits(p, width, height, y, b);
    for i := 0 to 8
      invariant acc == PackMsb(bits, i)
    {
      var x := b * 8 + i;
      if x < width {
        var pixel := p[y][x];
        assert bits[i] == (pixel == 1);
        PackStep(bits, i, acc, pixel == 1);
        acc := acc | Place(pixel == 1, i);
      } else {
        PackSkip(bits, i, acc);
      }
    }
    byteVal := ToByte(acc);
  }

  /** The bitmap fits the payload-size field when the dimensions fit theirs. */
  lemma BitmapFits(width: nat, height: nat)
    requires U16(width) && U16(height)
    ensures U32(BytesPerRow(width) * height)
  {
    MulMonotone(BytesPerRow(width), height, 8192, 65535);
  }

  /** The bytes `encode` returns for a monochrome grid. */
  function EncodeSpec(p: seq<seq<Bit>>, width: nat, height: nat): Result<seq<byte>>
    requires IsGrid(p, width, height)
  {
    FrameBytes(XTG_MAGIC, width, height, Bitmap(p, width, height))
  }

  /** `XTGWriter(width, height).encode` without dithering: the header, whose
      payload size is the bitmap's length and whose checksum is its byte sum,
      then the bitmap; only a width or height beyond 16 bits fails. */
  method Encode(gray: seq<seq<byte>>, width: nat, height: nat, threshold: int, invert: bool)
    returns (r: Result<seq<byte>>)
    requires IsGrid(gray, width, height)
    ensures r == EncodeSpec(MonochromeGrid(gray, threshold, invert), width, height)
    ensures r.Ok? <==> U16(width) && U16(height)
    ensures r.Err? ==> r.error == FieldOverflow
  {
    var p := MonochromeGrid(gray, threshold, invert);
    var bitmap := EncodeBitmap(p, width, height);
    var dataSize := |bitmap|;
    var checksum := ByteSum(bitmap);
    BitmapSize(p, width, height);
    if U16(width) && U16(height) {
      BitmapFits(width, height);
    }
    // struct.pack raises for a width, height or size out of its field's range
    if !(U16(width) && U16(height) && U32(dataSize)) {
      return Err(FieldOverflow);
    }
    r := Ok(Le(XTG_MAGIC, 4) + Le(width, 2) + Le(height, 2) + Le(0, 1) + Le(0, 1) + Le(dataSize, 4)
            + Le(checksum % U64_MOD, 8) + bitmap);
  }

  /** The pixel `decode` writes at row `y`, column `x`: 255 for a set bit,
      and 0 for a clear one or for a byte past the end of the payload. */
  function DecodedPixel(bitmap: seq<byte>, width: nat, y: nat, x: nat): int {
    var k := RowOffset(width, y, x / 8);
    if k < |bitmap| && BitAt(ToBits(bitmap[k]), x % 8) then 255 else 0
  }

  function DecodedPixels(bitmap: seq<byte>, width: nat, height: nat): (g: seq<seq<int>>)
    ensures IsGrid(g, width, height)
  {
    seq(height, y requires 0 <= y < height =>
      seq(width, x requires 0 <= x < width => DecodedPixel(bitmap, width, y, x)))
  }

  /** `XTGReader.decode`: the magic must be XTG's; the bitmap is everything
      after the 22-byte header, whatever its size field says. */
  function DecodeSpec(data: seq<byte>): (r: Result<Picture>)
    ensures r.Ok? <==> ParseHeader(data, XTG_MAGIC).Ok?
    ensures r.Err? ==> r.error == ParseHeader(data, XTG_MAGIC).error
    ensures r.Ok? ==> (r.value.width, r.value.height) == ParseHeader(data, XTG_MAGIC).value
    ensures r.Ok? ==> IsGrid(r.value.pixels, r.value.width, r.value.height)
    ensures r.Ok? ==> forall y, x :: 0 <= y < r.value.height && 0 <= x < r.value.width ==>
                        r.value.pixels[y][x] in {0, 255}
  {
    var (width, height) :- ParseHeader(data, XTG_MAGIC);
    Ok(Picture(width, height, DecodedPixels(Payload(data), width, height)))
  }

  /** `XTGReader.decode`: the header, then the pixels. */
  method Decode(data: seq<byte>) returns (r: Result<Picture>)
    ensures r == DecodeSpec(data)
  {
    var header := ParseHeader(data, XTG_MAGIC);
    if header.Err? {
      return Err(header.error);
    }
    var (width, height) := header.value;
    var pixels := DecodeBitmap(Payload(data), width, height);
    r := Ok(Picture(width, height, pixels));
  }

  /** The loops of `decode`: a zeroed buffer filled row by row, skipping the
      bytes the payload does not have. */
  method DecodeBitmap(bitmap: seq<byte>, width: nat, height: nat) returns (result: seq<seq<int>>)
    ensures result == DecodedPixels(bitmap, width, height)
  {
    var pixels := new int[height, width]((_, _) => 0);
    var bytesPerRow := (width + 7) / 8;
    for y := 0 to height
      invariant forall y', x' :: 0 <= y' < height && 0 <= x' < width ==>
                  pixels[y', x'] == if y' < y then DecodedPixel(bitmap, width, y', x') else 0
    {
      for byteIdx := 0 to bytesPerRow
        invariant forall y', x' :: 0 <= y' < height && 0 <= x' < width ==>
                    pixels[y', x'] == if y' < y || (y' == y && x' < 8 * byteIdx) then DecodedPixel(bitmap, width, y', x') else 0
      {
        var dataIdx := y * bytesPerRow + byteIdx;
        assert dataIdx == RowOffset(width, y, byteIdx);
        if dataIdx < |bitmap| {
          DecodeByte(pixels, bitmap, width, height, y, byteIdx, bitmap[dataIdx]);
        } else {
          MissingByte(bitmap, width, y, byteIdx);
        }
      }
    }
    result := seq(height, y requires 0 <= y < height reads pixels =>
                seq(width, x requires 0 <= x < width reads pixels => pixels[y, x]));
    var spec := DecodedPixels(bitmap, width, height);
    forall y | 0 <= y < height
      ensures result[y] == spec[y]
    {
      assert forall x :: 0 <= x < width ==> result[y][x] == spec[y][x];
    }
    assert result == spec;
  }

  /** A byte the payload does not have leaves its eight pixels 0. */
  lemma MissingByte(bitmap: seq<byte>, width: nat, y: nat, b: nat)
    requires RowOffset(width, y, b) >= |bitmap|
    ensures forall x :: 8 * b <= x < 8 * b + 8 ==> DecodedPixel(bitmap, width, y, x) == 0
  {
    forall x | 8 * b <= x < 8 * b + 8
      ensures DecodedPixel(bitmap, width, y, x) == 0
    {
      assert x / 8 == b;
    }
  }

  /** The innermost loop of `decode`: the eight pixels of byte `b` of row `y`. */
  method DecodeByte(pixels: array2<int>, ghost bitmap: seq<byte>, width: nat, height: nat, y: nat, b: nat, byteVal: byte)
    requires pixels.Length0 == height && pixels.Length1 == width && y < height
    requires RowOffset(width, y, b) < |bitmap| && byteVal == bitmap[RowOffset(width, y, b)]
    modifies pixels
    ensures forall y', x' :: 0 <= y' < height && 0 <= x' < width ==>
              pixels[y', x'] == if y' == y && 8 * b <= x' < 8 * b + 8 then DecodedPixel(bitmap, width, y', x')
                                else old(pixels[y', x'])
  {
    for i := 0 to 8
      invariant forall y', x' :: 0 <= y' < height && 0 <= x' < width ==>
                  pixels[y', x'] == if y' == y && 8 * b <= x' < 8 * b + i then DecodedPixel(bitmap, width, y', x')
                                    else old(pixels[y', x'])
    {
      var x := b * 8 + i;
      if x < width {
        var pixel := if BitAt(ToBits(byteVal), i) then 1 else 0;
        assert x / 8 == b && x % 8 == i;
        pixels[y, x] := pixel * 255;
      }
    }
  }

  /** What decoding gives back for a monochrome grid: 255 for light, 0 for
      dark. */
  function Scaled(p: seq<seq<Bit>>, width: nat, height: nat): (g: seq<seq<int>>)
    requires IsGrid(p, width, height)
    ensures IsGrid(g, width, height)
  {
    seq(height, y requires 0 <= y < height => seq(width, x requires 0 <= x < width => 255 * (p[y][x] as int)))
  }

  /** Decoding one pixel of an encoded grid gives it back, scaled. */
  lemma PixelRoundTrip(p: seq<seq<Bit>>, width: nat, height: nat, y: nat, x: nat)
    requires IsGrid(p, width, height) && y < height && x < width
    ensures DecodedPixel(Bitmap(p, width, height), width, y, x) == 255 * (p[y][x] as int)
  {
    var b, i := x / 8, x % 8;
    assert x == 8 * b + i && b < BytesPerRow(width);
    BitmapAt(p, width, height, y, b);
    var bits := ByteBits(p, width, height, y, b);
    ToBitsToByte(PackMsb(bits, 8));
    PackMsbBit(bits, i);
    assert bits[i] == (p[y][x] == 1);
  }

  /** Decoding what the encoder wrote for a monochrome grid gives back its
      dimensions and every pixel, as 0 or 255. */
  lemma EncodeThenDecode(p: seq<seq<Bit>>, width: nat, height: nat, bytes: seq<byte>)
    requires IsGrid(p, width, height) && EncodeSpec(p, width, height) == Ok(bytes)
    ensures DecodeSpec(bytes) == Ok(Picture(width, height, Scaled(p, width, height)))
  {
    var bitmap := Bitmap(p, width, height);
    ParseFrame(XTG_MAGIC, width, height, |bitmap|, Checksum(bitmap), bitmap);
    var decoded := DecodedPixels(bitmap, width, height);
    var scaled := Scaled(p, width, height);
    forall y | 0 <= y < height
      ensures decoded[y] == scaled[y]
    {
      forall x | 0 <= x < width
        ensures decoded[y][x] == scaled[y][x]
      {
        PixelRoundTrip(p, width, height, y, x);
      }
    }
    assert decoded == scaled;
  }
}
