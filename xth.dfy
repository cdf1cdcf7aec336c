/** The XTH frame format: four grey levels stored as two bit planes. Each
    level is remapped to the display's order and inverted, then its high bit
    goes to plane 1 and its low bit to plane 2. Columns are stored right to
    left, each as bands of eight rows with the top row in bit 7. */
module Xth {
  import opened Results
  import opened Bytes
  import opened FrameFormat

  /** A quantised pixel: the grey band it falls in, 0 (darkest) to 3 (lightest). */
  type Level = q: int | 0 <= q < 4

  /** `encode`'s default thresholds. */
  const DEFAULT_T1: int := 85
  const DEFAULT_T2: int := 170
  const DEFAULT_T3: int := 255

  /** The non-dithering branch of `_convert_to_4level` for one pixel: the
      four masked assignments run in order, so a later band wins. */
  function Quantize(gray: byte, t1: int, t2: int, t3: int): Level {
    if gray as int >= t3 then 3
    else if t2 <= gray as int < t3 then 2
    else if t1 <= gray as int < t2 then 1
    else 0
  }

  /** With ascending thresholds the bands are the intervals below `t1`,
      below `t2`, below `t3` and the rest, and so the level never falls
      as the pixel gets lighter. */
  lemma QuantizeAscending(gray: byte, t1: int, t2: int, t3: int)
    requires t1 <= t2 <= t3
    ensures gray as int < t1 ==> Quantize(gray, t1, t2, t3) == 0
    ensures t1 <= gray as int < t2 ==> Quantize(gray, t1, t2, t3) == 1
    ensures t2 <= gray as int < t3 ==> Quantize(gray, t1, t2, t3) == 2
    ensures t3 <= gray as int ==> Quantize(gray, t1, t2, t3) == 3
  {
  }

  lemma QuantizeMonotone(g1: byte, g2: byte, t1: int, t2: int, t3: int)
    requires t1 <= t2 <= t3 && g1 <= g2
    ensures Quantize(g1, t1, t2, t3) <= Quantize(g2, t1, t2, t3)
  {
    QuantizeAscending(g1, t1, t2, t3);
    QuantizeAscending(g2, t1, t2, t3);
  }

  /** The source pixel after the optional `255 - x` inversion. */
  function Source(gray: byte, invert: bool): byte {
    if invert then 255 - gray else gray
  }

  /** `_convert_to_4level` without dithering, on an image already in `L`
      mode and of the writer's size. */
  function QuantizeGrid(gray: seq<seq<byte>>, t1: int, t2: int, t3: int, invert: bool): (q: seq<seq<Level>>)
    ensures |q| == |gray| && forall y :: 0 <= y < |gray| ==> |q[y]| == |gray[y]|
    ensures forall y, x :: 0 <= y < |gray| && 0 <= x < |gray[y]| ==> q[y][x] == Quantize(Source(gray[y][x], invert), t1, t2, t3)
  {
    seq(|gray|, y requires 0 <= y < |gray| =>
      seq(|gray[y]|, x requires 0 <= x < |gray[y]| => Quantize(Source(gray[y][x], invert), t1, t2, t3)))
  }

  /** The display LUT `{0: 0, 1: 2, 2: 1, 3: 3}`: the middle greys swap. */
  function Lut(q: Level): Level {
    if q == 1 then 2 else if q == 2 then 1 else q
  }

  /** The stored value of a level: the LUT, then `3 - value`. */
  function Remap(q: Level): Level {
    3 - Lut(q)
  }

  /** `decode`'s reverse LUT `{0: 0, 2: 1, 1: 2, 3: 3}`. */
  function LutReverse(v: Level): Level {
    if v == 2 then 1 else if v == 1 then 2 else v
  }

  /** The remap is its own inverse, and the reverse LUT undoes the LUT. */
  lemma RemapInverse(q: Level)
    ensures Remap(Remap(q)) == q
    ensures LutReverse(3 - Remap(q)) == q
  {
  }

  /** Number of eight-row bands in a column (`range(0, height, 8)`). */
  function Bands(height: nat): nat {
    (height + 7) / 8
  }

  /** The mapped grid `3 - lut(pixel_values)`. */
  function Mapped(q: seq<seq<Level>>): (m: seq<seq<Level>>)
    ensures |m| == |q| && forall y :: 0 <= y < |q| ==> |m[y]| == |q[y]|
    ensures forall y, x :: 0 <= y < |q| && 0 <= x < |q[y]| ==> m[y][x] == Remap(q[y][x])
  {
    seq(|q|, y requires 0 <= y < |q| => seq(|q[y]|, x requires 0 <= x < |q[y]| => Remap(q[y][x])))
  }

  /** The bit a stored value contributes to a plane: the high bit for
      plane 1, the low bit for plane 2. */
  function PlaneBit(v: Level, high: bool): bool {
    // (v >> 1) & 1 and v & 1
    if high then (v / 2) % 2 == 1 else v % 2 == 1
  }

  /** The eight pixels of the band at rows `y .. y + 7` of column `x`, as
      bits of one plane; rows past the height are clear. */
  function BandBits(q: seq<seq<Level>>, width: nat, height: nat, x: nat, y: nat, high: bool): (bits: seq<bool>)
    requires IsGrid(q, width, height) && x < width
    ensures |bits| == 8
  {
    seq(8, i requires 0 <= i < 8 => y + i < height && PlaneBit(Remap(q[y + i][x]), high))
  }

  /** The byte of one plane that holds the band at rows `y .. y + 7`. */
  function BandByte(q: seq<seq<Level>>, width: nat, height: nat, x: nat, y: nat, high: bool): byte
    requires IsGrid(q, width, height) && x < width
  {
    ToByte(PackMsb(BandBits(q, width, height, x, y, high), 8))
  }

  /** The bytes of column `x` in one plane, top band first. */
  function Column(q: seq<seq<Level>>, width: nat, height: nat, x: nat, high: bool): (r: seq<byte>)
    requires IsGrid(q, width, height) && x < width
    ensures |r| == Bands(height)
  {
    seq(Bands(height), j requires 0 <= j < Bands(height) => BandByte(q, width, height, x, 8 * j, high))
  }

  /** The columns of one plane in storage order: column `c` is pixel column
      `width - 1 - c`. */
  function Columns(q: seq<seq<Level>>, width: nat, height: nat, high: bool): (cs: seq<seq<byte>>)
    requires IsGrid(q, width, height)
    ensures |cs| == width
    ensures forall c :: 0 <= c < width ==> |cs[c]| == Bands(height)
  {
    seq(width, c requires 0 <= c < width => Column(q, width, height, width - 1 - c, high))
  }

  /** A whole plane. */
  function Plane(q: seq<seq<Level>>, width: nat, height: nat, high: bool): seq<byte>
    requires IsGrid(q, width, height)
  {
    Concat(Columns(q, width, height, high))
  }

  /** Each plane holds `width * ceil(height / 8)` bytes, and the byte of
      band `j` of pixel column `x` is at `(width - 1 - x) * bands + j`. */
  function PlaneOffset(width: nat, height: nat, x: nat, j: nat): nat
    requires x < width
  {
    Bands(height) * (width - 1 - x) + j
  }

  lemma PlaneAt(q: seq<seq<Level>>, width: nat, height: nat, high: bool, x: nat, j: nat)
    requires IsGrid(q, width, height) && x < width && j < Bands(height)
    ensures |Plane(q, width, height, high)| == width * Bands(height)
    ensures PlaneOffset(width, height, x, j) < |Plane(q, width, height, high)|
    ensures Plane(q, width, height, high)[PlaneOffset(width, height, x, j)]
         == BandByte(q, width, height, x, 8 * j, high)
  {
    var cs := Columns(q, width, height, high);
    UniformByte(cs, Bands(height), width - 1 - x, j);
    assert cs[width - 1 - x] == Column(q, width, height, x, high);
  }

  lemma PlaneSize(q: seq<seq<Level>>, width: nat, height: nat, high: bool)
    requires IsGrid(q, width, height)
    ensures |Plane(q, width, height, high)| == width * Bands(height)
  {
    var cs := Columns(q, width, height, high);
    TotalSizeUniform(cs, Bands(height), width);
    assert cs[..width] == cs;
  }

  /** `_encode_bitplanes`. */
  method EncodeBitplanes(q: seq<seq<Level>>, width: nat, height: nat) returns (plane1: seq<byte>, plane2: seq<byte>)
    requires IsGrid(q, width, height)
    ensures plane1 == Plane(q, width, height, true)
    ensures plane2 == Plane(q, width, height, false)
  {
    var mapped := Mapped(q);
    ghost var cs1 := Columns(q, width, height, true);
    ghost var cs2 := Columns(q, width, height, false);
    plane1 := [];
    plane2 := [];
    var x: int := width - 1;
    while x >= 0
      invariant -1 <= x < width
      invariant plane1 == Concat(cs1[..width - 1 - x])
      invariant plane2 == Concat(cs2[..width - 1 - x])
    {
      var col1, col2 := PackColumn(q, mapped, width, height, x);
      plane1 := plane1 + col1;
      plane2 := plane2 + col2;
      ColumnsStep(q, width, height, x, true);
      ColumnsStep(q, width, height, x, false);
      x := x - 1;
    }
    assert cs1[..width] == cs1 && cs2[..width] == cs2;
  }

  /** The inner loop of `_encode_bitplanes`: the bytes of pixel column `x`
      in both planes, one per band of eight rows. */
  method PackColumn(ghost q: seq<seq<Level>>, mapped: seq<seq<Level>>, width: nat, height: nat, x: nat)
    returns (col1: seq<byte>, col2: seq<byte>)
    requires IsGrid(q, width, height) && x < width && mapped == Mapped(q)
    ensures col1 == Column(q, width, height, x, true)[..Bands(height)]
    ensures col2 == Column(q, width, height, x, false)[..Bands(height)]
  {
    col1 := [];
    col2 := [];
    for j := 0 to Bands(height)
      invariant col1 == Column(q, width, height, x, true)[..j]
      invariant col2 == Column(q, width, height, x, false)[..j]
    {
      var byte1, byte2 := PackBand(q, mapped, width, height, x, 8 * j);
      ColumnBand(q, width, height, x, j);
      col1 := col1 + [byte1];
      col2 := col2 + [byte2];
    }
  }

  /** Finishing pixel column `x` appends storage column `width - 1 - x`. */
  lemma ColumnsStep(q: seq<seq<Level>>, width: nat, height: nat, x: nat, high: bool)
    requires IsGrid(q, width, height) && x < width
    ensures var cs := Columns(q, width, height, high);
            Concat(cs[..width - 1 - x]) + Column(q, width, height, x, high)[..Bands(height)]
            == Concat(cs[..width - x])
  {
    var cs := Columns(q, width, height, high);
    var c := width - 1 - x;
    assert Column(q, width, height, x, high)[..Bands(height)] == cs[c];
    ConcatSnoc(cs[..c], cs[c]);
    assert cs[..c] + [cs[c]] == cs[..c + 1];
  }

  /** The inner loop of `_encode_bitplanes`: the two plane bytes of the band
      at rows `y .. y + 7` of column `x`. */
  method PackBand(ghost q: seq<seq<Level>>, mapped: seq<seq<Level>>, width: nat, height: nat, x: nat, y: nat)
    returns (byte1: byte, byte2: byte)
    requires IsGrid(q, width, height) && x < width && mapped == Mapped(q)
    ensures byte1 == BandByte(q, width, height, x, y, true)
    ensures byte2 == BandByte(q, width, height, x, y, false)
  {
    var acc1: bv8 := 0;
    var acc2: bv8 := 0;
    ghost var bits1 := BandBits(q, width, height, x, y, true);
    ghost var bits2 := BandBits(q, width, height, x, y, false);
    for i := 0 to 8
      invariant acc1 == PackMsb(bits1, i)
      invariant acc2 == PackMsb(bits2, i)
    {
      if y + i < height {
        var v := mapped[y + i][x];
        var bit1 := PlaneBit(v, true);
        var bit2 := PlaneBit(v, false);
        BandBit(q, width, height, x, y, i);
        PackStep(bits1, i, acc1, bit1);
        PackStep(bits2, i, acc2, bit2);
        acc1 := acc1 | Place(bit1, i);
        acc2 := acc2 | Place(bit2, i);
      } else {
        PackSkip(bits1, i, acc1);
        PackSkip(bits2, i, acc2);
      }
    }
    byte1 := ToByte(acc1);
    byte2 := ToByte(acc2);
  }

  /** The bits the packing loop reads for row `y + i` of column `x`. */
  lemma BandBit(q: seq<seq<Level>>, width: nat, height: nat, x: nat, y: nat, i: nat)
    requires IsGrid(q, width, height) && x < width && i < 8 && y + i < height
    ensures forall high: bool {:trigger BandBits(q, width, height, x, y, high)} ::
              BandBits(q, width, height, x, y, high)[i] == PlaneBit(Remap(q[y + i][x]), high)
  {
  }

  /** Appending the byte of band `j` extends the prefix of the column by one. */
  lemma ColumnBand(q: seq<seq<Level>>, width: nat, height: nat, x: nat, j: nat)
    requires IsGrid(q, width, height) && x < width && j < Bands(height)
    ensures forall high: bool {:trigger Column(q, width, height, x, high)} ::
              Column(q, width, height, x, high)[..j + 1]
              == Column(q, width, height, x, high)[..j] + [BandByte(q, width, height, x, 8 * j, high)]
  {
  }

  /** Both planes together fit the payload-size field when the dimensions
      fit theirs. */
  lemma PayloadFits(width: nat, height: nat)
    requires U16(width) && U16(height)
    ensures U32(2 * (width * Bands(height)))
  {
    MulMonotone(width, Bands(height), 65535, 8192);
  }

  /** The bytes `encode` returns for a quantised grid: the header, plane 1
      and plane 2. */
  function EncodeSpec(q: seq<seq<Level>>, width: nat, height: nat): Result<seq<byte>>
    requires IsGrid(q, width, height)
  {
    FrameBytes(XTH_MAGIC, width, height, Plane(q, width, height, true) + Plane(q, width, height, false))
  }

  /** `XTHWriter(width, height).encode` without dithering. The header's
      payload size is both planes' length and its checksum is the byte sum
      of both planes; only a width or height beyond 16 bits fails. */
  method Encode(gray: seq<seq<byte>>, width: nat, height: nat, t1: int, t2: int, t3: int, invert: bool)
    returns (r: Result<seq<byte>>)
    requires IsGrid(gray, width, height)
    ensures r == EncodeSpec(QuantizeGrid(gray, t1, t2, t3, invert), width, height)
    ensures r.Ok? <==> U16(width) && U16(height)
    ensures r.Err? ==> r.error == FieldOverflow
  {
    var q := QuantizeGrid(gray, t1, t2, t3, invert);
    var plane1, plane2 := EncodeBitplanes(q, width, height);
    var dataSize := |plane1| + |plane2|;
    var checksum := ByteSum(plane1) + ByteSum(plane2);
    PlaneSize(q, width, height, true);
    PlaneSize(q, width, height, false);
    if U16(width) && U16(height) {
      PayloadFits(width, height);
      FrameOfPlanes(width, height, plane1, plane2);
    }
    // struct.pack raises for a width, height or size out of its field's range
    if !(U16(width) && U16(height) && U32(dataSize)) {
      return Err(FieldOverflow);
    }
    r := Ok(Le(XTH_MAGIC, 4) + Le(width, 2) + Le(height, 2) + Le(0, 1) + Le(0, 1) + Le(dataSize, 4)
            + Le(checksum % U64_MOD, 8) + plane1 + plane2);
  }

  /** The frame of two planes is the header, then plane 1, then plane 2. */
  lemma FrameOfPlanes(width: nat, height: nat, plane1: seq<byte>, plane2: seq<byte>)
    requires U16(width) && U16(height) && U32(|plane1| + |plane2|)
    ensures FrameBytes(XTH_MAGIC, width, height, plane1 + plane2)
         == Ok(Le(XTH_MAGIC, 4) + Le(width, 2) + Le(height, 2) + Le(0, 1) + Le(0, 1) + Le(|plane1| + |plane2|, 4)
               + Le((ByteSum(plane1) + ByteSum(plane2)) % U64_MOD, 8) + plane1 + plane2)
  {
    ByteSumAppend(plane1, plane2);
    var payload := plane1 + plane2;
    assert Checksum(payload) == (ByteSum(plane1) + ByteSum(plane2)) % U64_MOD;
    var header := FrameHeader(XTH_MAGIC, width, height, |payload|, Checksum(payload));
    assert header + payload == header + plane1 + plane2;
  }

  /** `plane[k] if k < len(plane) else 0`. */
  function PlaneByte(plane: seq<byte>, k: nat): byte {
    if k < |plane| then plane[k] else 0
  }

  function BitValue(b: bool): nat {
    if b then 1 else 0
  }

  /** The pixel `decode` writes at row `y` of column `x`: the two bits of
      its band byte read as `(bit1 << 1) | bit2`, un-inverted, looked up in
      the reverse LUT and scaled by 85. */
  function DecodedPixel(plane1: seq<byte>, plane2: seq<byte>, width: nat, height: nat, x: nat, y: nat): int
    requires x < width
  {
    var k := PlaneOffset(width, height, x, y / 8);
    var bit1 := BitAt(ToBits(PlaneByte(plane1, k)), y % 8);
    var bit2 := BitAt(ToBits(PlaneByte(plane2, k)), y % 8);
    LutReverse(3 - (2 * BitValue(bit1) + BitValue(bit2))) * 85
  }

  /** The picture `decode` builds from its two planes. */
  function DecodedPixels(plane1: seq<byte>, plane2: seq<byte>, width: nat, height: nat): (g: seq<seq<int>>)
    ensures IsGrid(g, width, height)
  {
    seq(height, y requires 0 <= y < height =>
      seq(width, x requires 0 <= x < width => DecodedPixel(plane1, plane2, width, height, x, y)))
  }

  /** `XTHReader.decode`: the magic must be XTH's; the payload after the
      22-byte header is halved into the two planes whatever the header's size
      field says, and bytes missing from a short plane read as 0. */
  function DecodeSpec(data: seq<byte>): (r: Result<Picture>)
    ensures r.Ok? <==> ParseHeader(data, XTH_MAGIC).Ok?
    ensures r.Err? ==> r.error == ParseHeader(data, XTH_MAGIC).error
    ensures r.Ok? ==> (r.value.width, r.value.height) == ParseHeader(data, XTH_MAGIC).value
    ensures r.Ok? ==> IsGrid(r.value.pixels, r.value.width, r.value.height)
    ensures r.Ok? ==> forall y, x :: 0 <= y < r.value.height && 0 <= x < r.value.width ==>
                        r.value.pixels[y][x] in {0, 85, 170, 255}
  {
    var (width, height) :- ParseHeader(data, XTH_MAGIC);
    var payload := Payload(data);
    var half := |payload| / 2;
    Ok(Picture(width, height, DecodedPixels(payload[..half], payload[half..], width, height)))
  }

  /** `XTHReader.decode`: the header, the two halves of the payload, then
      the pixels. */
  method Decode(data: seq<byte>) returns (r: Result<Picture>)
    ensures r == DecodeSpec(data)
  {
    var header := ParseHeader(data, XTH_MAGIC);
    if header.Err? {
      return Err(header.error);
    }
    var (width, height) := header.value;
    var bitplane := Payload(data);
    var size := |bitplane| / 2;
    var plane1 := bitplane[..size];
    var plane2 := bitplane[size..];
    var pixels := DecodePlanes(plane1, plane2, width, height);
    r := Ok(Picture(width, height, pixels));
  }

  /** The loops of `decode`: a zeroed `height` x `width` buffer filled
      column by column from the right, eight rows at a time. */
  method DecodePlanes(plane1: seq<byte>, plane2: seq<byte>, width: nat, height: nat) returns (result: seq<seq<int>>)
    ensures result == DecodedPixels(plane1, plane2, width, height)
  {
    var pixels := new int[height, width]((_, _) => 0);
    var bitIdx := 0;
    var x: int := width - 1;
    while x >= 0
      invariant -1 <= x < width
      invariant bitIdx == 8 * (Bands(height) * (width - 1 - x))
      invariant forall y', x' :: 0 <= y' < height && 0 <= x' < width ==>
                  pixels[y', x'] == if x' > x then DecodedPixel(plane1, plane2, width, height, x', y') else 0
    {
      for j := 0 to Bands(height)
        invariant bitIdx == 8 * PlaneOffset(width, height, x, j)
        invariant forall y', x' :: 0 <= y' < height && 0 <= x' < width ==>
                    pixels[y', x'] == if x' > x || (x' == x && y' < 8 * j) then DecodedPixel(plane1, plane2, width, height, x', y') else 0
      {
        var byteIdx := bitIdx / 8;
        var byte1 := if byteIdx < |plane1| then plane1[byteIdx] else 0;
        var byte2 := if byteIdx < |plane2| then plane2[byteIdx] else 0;
        DecodeBand(pixels, plane1, plane2, width, height, x, j, byte1, byte2);
        bitIdx := bitIdx + 8;
      }
      assert Bands(height) * (width - 1 - (x - 1)) == Bands(height) * (width - 1 - x) + Bands(height);
      x := x - 1;
    }
    result := seq(height, y requires 0 <= y < height reads pixels =>
                    seq(width, x requires 0 <= x < width reads pixels => pixels[y, x]));
    var spec := DecodedPixels(plane1, plane2, width, height);
    forall y | 0 <= y < height
      ensures result[y] == spec[y]
    {
      assert forall x :: 0 <= x < width ==> result[y][x] == spec[y][x];
    }
    assert result == spec;
  }

  /** The inner loop of `decode`: the rows of band `j` of column `x` from
      that band's byte of each plane. */
  method DecodeBand(pixels: array2<int>, ghost plane1: seq<byte>, ghost plane2: seq<byte>, width: nat, height: nat,
                    x: nat, j: nat, byte1: byte, byte2: byte)
    requires pixels.Length0 == height && pixels.Length1 == width && x < width
    requires byte1 == PlaneByte(plane1, PlaneOffset(width, height, x, j))
    requires byte2 == PlaneByte(plane2, PlaneOffset(width, height, x, j))
    modifies pixels
    ensures forall y', x' :: 0 <= y' < height && 0 <= x' < width ==>
              pixels[y', x'] == if x' == x && 8 * j <= y' < 8 * j + 8 then DecodedPixel(plane1, plane2, width, height, x', y')
                                else old(pixels[y', x'])
  {
    var y := 8 * j;
    for i := 0 to 8
      invariant forall y', x' :: 0 <= y' < height && 0 <= x' < width ==>
                  pixels[y', x'] == if x' == x && y <= y' < y + i then DecodedPixel(plane1, plane2, width, height, x', y')
                                    else old(pixels[y', x'])
    {
      if y + i < height {
        var bit1 := BitAt(ToBits(byte1), i);
        var bit2 := BitAt(ToBits(byte2), i);
        var v := 2 * BitValue(bit1) + BitValue(bit2);
        assert (y + i) / 8 == j && (y + i) % 8 == i;
        pixels[y + i, x] := LutReverse(3 - v) * 85;
      }
    }
  }

  /** What decoding gives back for a quantised grid: each level times 85. */
  function Scaled(q: seq<seq<Level>>, width: nat, height: nat): (g: seq<seq<int>>)
    requires IsGrid(q, width, height)
    ensures IsGrid(g, width, height)
  {
    seq(height, y requires 0 <= y < height => seq(width, x requires 0 <= x < width => 85 * (q[y][x] as int)))
  }

  /** The two plane bits of a stored value rebuild it. */
  lemma PlaneBits(v: Level)
    ensures 2 * BitValue(PlaneBit(v, true)) + BitValue(PlaneBit(v, false)) == v
  {
  }

  /** Decoding one pixel of an encoded grid gives its level times 85. */
  lemma PixelRoundTrip(q: seq<seq<Level>>, width: nat, height: nat, x: nat, y: nat)
    requires IsGrid(q, width, height) && x < width && y < height
    ensures DecodedPixel(Plane(q, width, height, true), Plane(q, width, height, false), width, height, x, y) == 85 * (q[y][x] as int)
  {
    PlanePixel(q, width, height, true, x, y);
    PlanePixel(q, width, height, false, x, y);
    PlaneBits(Remap(q[y][x]));
    RemapInverse(q[y][x]);
  }

  /** The bit a decoder reads for pixel `(x, y)` from one plane is that
      plane's bit of the pixel's remapped level. */
  lemma PlanePixel(q: seq<seq<Level>>, width: nat, height: nat, high: bool, x: nat, y: nat)
    requires IsGrid(q, width, height) && x < width && y < height
    ensures BitAt(ToBits(PlaneByte(Plane(q, width, height, high), PlaneOffset(width, height, x, y / 8))), y % 8)
         == PlaneBit(Remap(q[y][x]), high)
  {
    var j, i := y / 8, y % 8;
    assert y == 8 * j + i && j < Bands(height);
    PlaneAt(q, width, height, high, x, j);
    var bits := BandBits(q, width, height, x, 8 * j, high);
    ToBitsToByte(PackMsb(bits, 8));
    PackMsbBit(bits, i);
    BandBit(q, width, height, x, 8 * j, i);
  }

  /** Decoding what the encoder wrote for a quantised grid gives back its
      dimensions and every level, scaled to 0, 85, 170 or 255. */
  lemma EncodeThenDecode(q: seq<seq<Level>>, width: nat, height: nat, bytes: seq<byte>)
    requires IsGrid(q, width, height) && EncodeSpec(q, width, height) == Ok(bytes)
    ensures DecodeSpec(bytes) == Ok(Picture(width, height, Scaled(q, width, height)))
  {
    var p1, p2 := Plane(q, width, height, true), Plane(q, width, height, false);
    var payload := p1 + p2;
    PlaneSize(q, width, height, true);
    PlaneSize(q, width, height, false);
    ParseFrame(XTH_MAGIC, width, height, |payload|, Checksum(payload), payload);
    assert payload[..|payload| / 2] == p1 && payload[|payload| / 2..] == p2;
    var decoded := DecodedPixels(p1, p2, width, height);
    var scaled := Scaled(q, width, height);
    forall y | 0 <= y < height
      ensures decoded[y] == scaled[y]
    {
      forall x | 0 <= x < width
        ensures decoded[y][x] == scaled[y][x]
      {
        PixelRoundTrip(q, width, height, x, y);
      }
    }
    assert decoded == scaled;
  }
}
