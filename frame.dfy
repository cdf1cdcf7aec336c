/** What the two frame formats share: the 22-byte header (magic, width,
    height, colour mode 0, compression 0, payload size, additive checksum)
    and packing eight pixels into a byte with the first one in bit 7. */
module FrameFormat {
  import opened Results
  import opened Bytes

  const FRAME_HEADER_SIZE: nat := 22
  const XTH_MAGIC: nat := 0x0048_5458   // "XTH\0" read as a little-endian u32
  const XTG_MAGIC: nat := 0x0047_5458   // "XTG\0"

  /** A `height` x `width` grid indexed `[y][x]`, as numpy's `[y, x]`. */
  predicate IsGrid<T>(g: seq<seq<T>>, width: nat, height: nat) {
    |g| == height && forall y :: 0 <= y < height ==> |g[y]| == width
  }

  /** A decoded greyscale image: its header dimensions and its pixels. */
  datatype Picture = Picture(width: nat, height: nat, pixels: seq<seq<int>>)

  /** `sum(payload) & 0xFFFFFFFFFFFFFFFF`. */
  function Checksum(payload: seq<byte>): (r: nat)
    ensures U64(r)
  {
    ByteSum(payload) % U64_MOD
  }

  /** The 22-byte header of a frame. */
  function FrameHeader(magic: nat, width: nat, height: nat, dataSize: nat, checksum: nat): (r: seq<byte>)
    ensures |r| == FRAME_HEADER_SIZE
  {
    Le(magic, 4) + Le(width, 2) + Le(height, 2) + Le(0, 1) + Le(0, 1) + Le(dataSize, 4) + Le(checksum, 8)
  }

  /** The header-and-payload step of `encode`: width, height and payload size
      must fit their fields. */
  function FrameBytes(magic: nat, width: int, height: int, payload: seq<byte>): (r: Result<seq<byte>>)
    requires magic < 0x1_0000_0000
    ensures r.Ok? <==> U16(width) && U16(height) && U32(|payload|)
    ensures r.Ok? ==> r.value == FrameHeader(magic, width, height, |payload|, Checksum(payload)) + payload
    ensures r.Err? ==> r.error == FieldOverflow
  {
    Pow256Values();
    var w :- Pack(width, 2);
    var h :- Pack(height, 2);
    var size :- Pack(|payload|, 4);
    Ok(Le(magic, 4) + w + h + Le(0, 1) + Le(0, 1) + size + Le(Checksum(payload), 8) + payload)
  }

  /** The header part of `decode`: the magic must match, then width and
      height are read. */
  function ParseHeader(data: seq<byte>, magic: nat): (r: Result<(nat, nat)>)
    ensures r.Ok? <==> |data| >= 8 && FromLe(data[0..4]) == magic
    ensures r.Ok? ==> r.value == (FromLe(data[4..6]), FromLe(data[6..8]))
    ensures |data| >= 4 && FromLe(data[0..4]) != magic ==> r == Err(BadMagic)
    ensures (|data| < 4 || (FromLe(data[0..4]) == magic && |data| < 8)) ==> r == Err(Truncated)
  {
    var m :- Unpack(data, 0, 4);
    if m != magic then Err(BadMagic)
    else
      var width :- Unpack(data, 4, 2);
      var height :- Unpack(data, 6, 2);
      Ok((width, height))
  }

  /** The bytes after the header (`data[22:]`, empty for a short input). */
  function Payload(data: seq<byte>): (r: seq<byte>)
    ensures |data| >= FRAME_HEADER_SIZE ==> r == data[FRAME_HEADER_SIZE..]
    ensures |data| < FRAME_HEADER_SIZE ==> r == []
  {
    Slice(data, FRAME_HEADER_SIZE, |data|)
  }

  /** A header this module wrote parses back to its width and height, and
      the payload follows it. */
  lemma {:induction false} ParseFrame(magic: nat, width: nat, height: nat, dataSize: nat, checksum: nat, payload: seq<byte>)
    requires magic < 0x1_0000_0000 && U16(width) && U16(height)
    ensures var data := FrameHeader(magic, width, height, dataSize, checksum) + payload;
            ParseHeader(data, magic) == Ok((width, height)) && Payload(data) == payload
  {
    Pow256Values();
    var data := FrameHeader(magic, width, height, dataSize, checksum) + payload;
    var q0 := Le(magic, 4);
    var q1 := q0 + Le(width, 2);
    var q2 := q1 + Le(height, 2);
    var header := FrameHeader(magic, width, height, dataSize, checksum);
    assert header == q2 + (Le(0, 1) + Le(0, 1) + Le(dataSize, 4) + Le(checksum, 8));
    Halves(header, payload);
    Split(data, 0, header, payload);
    Split(data, 0, q2, Le(0, 1) + Le(0, 1) + Le(dataSize, 4) + Le(checksum, 8));
    Split(data, 0, q1, Le(height, 2));
    Split(data, 0, q0, Le(width, 2));
    ReadField(data, 0, magic, 4);
    ReadField(data, 4, width, 2);
    ReadField(data, 6, height, 2);
  }

  const MASKS: seq<bv8> := [0x80, 0x40, 0x20, 0x10, 0x08, 0x04, 0x02, 0x01]

  /** Bit `7 - i` of a byte: where pixel `i` of a group of eight goes. */
  function Mask(i: nat): bv8
    requires i < 8
  {
    MASKS[i]
  }

  /** One pixel's bit as a byte. */
  function BitByte(b: bool): bv8 {
    if b then 1 else 0
  }

  /** Pixel `i` of a group of eight in its place, the source's
      `bit << (7 - i)` (see `ShiftIsMask`). */
  function Place(x: bool, i: nat): bv8
    requires i < 8
  {
    if x then Mask(i) else 0
  }

  /** Shifting the bit left by `7 - i` places it at pixel `i`. */
  lemma ShiftIsMask(x: bool, i: nat)
    requires i < 8
    ensures BitByte(x) << (7 - i) == Place(x, i)
  {
    if i == 0 { assert BitByte(x) << 7 == (if x then 0x80 else 0); }
    else if i == 1 { assert BitByte(x) << 6 == (if x then 0x40 else 0); }
    else if i == 2 { assert BitByte(x) << 5 == (if x then 0x20 else 0); }
    else if i == 3 { assert BitByte(x) << 4 == (if x then 0x10 else 0); }
    else if i == 4 { assert BitByte(x) << 3 == (if x then 0x08 else 0); }
    else if i == 5 { assert BitByte(x) << 2 == (if x then 0x04 else 0); }
    else if i == 6 { assert BitByte(x) << 1 == (if x then 0x02 else 0); }
    else { assert BitByte(x) << 0 == (if x then 0x01 else 0); }
  }

  /** Pixel `i` of a packed byte, the source's `(b >> (7 - i)) & 1` (see
      `BitAtShift`). */
  function BitAt(b: bv8, i: nat): bool
    requires i < 8
  {
    b & Mask(i) != 0
  }

  /** Shifting right by `7 - i` and keeping the low bit reads pixel `i`. */
  lemma BitAtShift(b: bv8, i: nat)
    requires i < 8
    ensures ((b >> (7 - i)) & 1 == 1) == BitAt(b, i)
  {
    if i < 2 { ShiftPixels01(b); }
    else if i < 4 { ShiftPixels23(b); }
    else if i < 6 { ShiftPixels45(b); }
    else { ShiftPixels67(b); }
  }

  lemma ShiftPixels01(b: bv8)
    ensures ((b >> 7) & 1 == 1) == BitAt(b, 0)
    ensures ((b >> 6) & 1 == 1) == BitAt(b, 1)
  {
    assert (b >> 7) & 1 == 1 <==> b & 0x80 != 0;
    assert (b >> 6) & 1 == 1 <==> b & 0x40 != 0;
  }

  lemma ShiftPixels23(b: bv8)
    ensures ((b >> 5) & 1 == 1) == BitAt(b, 2)
    ensures ((b >> 4) & 1 == 1) == BitAt(b, 3)
  {
    assert (b >> 5) & 1 == 1 <==> b & 0x20 != 0;
    assert (b >> 4) & 1 == 1 <==> b & 0x10 != 0;
  }

  lemma ShiftPixels45(b: bv8)
    ensures ((b >> 3) & 1 == 1) == BitAt(b, 4)
    ensures ((b >> 2) & 1 == 1) == BitAt(b, 5)
  {
    assert (b >> 3) & 1 == 1 <==> b & 0x08 != 0;
    assert (b >> 2) & 1 == 1 <==> b & 0x04 != 0;
  }

  lemma ShiftPixels67(b: bv8)
    ensures ((b >> 1) & 1 == 1) == BitAt(b, 6)
    ensures ((b >> 0) & 1 == 1) == BitAt(b, 7)
  {
    assert (b >> 1) & 1 == 1 <==> b & 0x02 != 0;
    assert (b >> 0) & 1 == 1 <==> b & 0x01 != 0;
  }

  /** The byte the loop `for i in range(n): byte |= bit[i] << (7 - i)`
      builds: the first `n` bits, the first in bit 7. */
  function PackMsb(bits: seq<bool>, n: nat): bv8
    requires n <= |bits| <= 8
  {
    if n == 0 then 0 else PackMsb(bits, n - 1) | Place(bits[n - 1], n - 1)
  }

  /** One step of the packing loop: or-ing pixel `i`'s bit into the byte
      packed from the first `i` pixels packs the first `i + 1`. */
  lemma PackStep(bits: seq<bool>, i: nat, acc: bv8, b: bool)
    requires i < |bits| <= 8 && acc == PackMsb(bits, i) && b == bits[i]
    ensures acc | Place(b, i) == PackMsb(bits, i + 1)
  {
  }

  /** A clear pixel that the loop skips leaves the byte as packing it would. */
  lemma PackSkip(bits: seq<bool>, i: nat, acc: bv8)
    requires i < |bits| <= 8 && acc == PackMsb(bits, i) && !bits[i]
    ensures acc == PackMsb(bits, i + 1)
  {
  }

  lemma MaskOr(a: bv8, x: bool, j: nat, i: nat)
    requires i < 8 && j < 8
    ensures (a | (if x then Mask(j) else 0)) & Mask(i) != 0 <==> (a & Mask(i) != 0 || (x && i == j))
  {
  }

  /** Bit `i` of the byte packed from the first `n` pixels is pixel `i`
      when `i < n`, and clear otherwise. */
  lemma {:induction false} PackMsbBits(bits: seq<bool>, n: nat, i: nat)
    requires n <= |bits| == 8 && i < 8
    ensures PackMsb(bits, n) & Mask(i) != 0 <==> (i < n && bits[i])
  {
    if n > 0 {
      PackMsbBits(bits, n - 1, i);
      MaskOr(PackMsb(bits, n - 1), bits[n - 1], n - 1, i);
    }
  }

  /** Reading bit `i` of a packed byte gives pixel `i` back. */
  lemma PackMsbBit(bits: seq<bool>, i: nat)
    requires |bits| == 8 && i < 8
    ensures BitAt(PackMsb(bits, 8), i) == bits[i]
  {
    PackMsbBits(bits, 8, i);
  }

  /** A packed byte as a value of the output buffer. */
  function ToByte(b: bv8): byte {
    (b as int) as byte
  }

  /** A stored byte as a bit vector, for the shifts of `decode`. */
  function ToBits(b: byte): bv8 {
    (b as int) as bv8
  }

  lemma ToBitsToByte(b: bv8)
    ensures ToBits(ToByte(b)) == b
  {
  }
}
