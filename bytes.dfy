/** Byte-level helpers: little-endian integer fields as written by Python's
    `struct.pack('<B'|'<H'|'<I'|'<Q', n)` and read back by `struct.unpack`,
    Python's clipped slicing, NUL-padded fixed-width text fields and the
    additive checksum of the frame formats. */
module Bytes {
  import opened Results

  newtype byte = x: int | 0 <= x < 256

  const U64_MOD: nat := 0x1_0000_0000_0000_0000

  /** The ranges `struct.pack` accepts for `B`, `H`, `I` and `Q`. */
  predicate U8(n: int) { 0 <= n < 0x100 }
  predicate U16(n: int) { 0 <= n < 0x1_0000 }
  predicate U32(n: int) { 0 <= n < 0x1_0000_0000 }
  predicate U64(n: int) { 0 <= n < U64_MOD }

  function Pow256(k: nat): (r: nat)
    ensures r >= 1
  {
    if k == 0 then 1 else 256 * Pow256(k - 1)
  }

  lemma Pow256Values()
    ensures Pow256(1) == 0x100 && Pow256(2) == 0x1_0000 && Pow256(4) == 0x1_0000_0000
    ensures Pow256(8) == U64_MOD
  {
    assert Pow256(1) == 0x100;
    assert Pow256(2) == 0x1_0000;
    assert Pow256(3) == 0x100_0000;
    assert Pow256(4) == 0x1_0000_0000;
    assert Pow256(5) == 0x100_0000_0000;
    assert Pow256(6) == 0x1_0000_0000_0000;
    assert Pow256(7) == 0x100_0000_0000_0000;
  }

  /** Byte `i` of `n`, counting from the least significant. */
  function ByteAt(n: nat, i: nat): byte {
    if i == 0 then (n % 256) as byte else ByteAt(n / 256, i - 1)
  }

  /** `k` bytes of `n`, least significant first. */
  function Le(n: nat, k: nat): (r: seq<byte>)
    ensures |r| == k
  {
    seq(k, i requires 0 <= i < k => ByteAt(n, i))
  }

  /** The unsigned little-endian value of `s`. */
  function FromLe(s: seq<byte>): (r: nat)
    ensures r < Pow256(|s|)
  {
    if s == [] then 0 else s[0] as nat + 256 * FromLe(s[1..])
  }

  /** The bytes of `n` after the first are the bytes of `n / 256`. */
  lemma LeTail(n: nat, k: nat)
    requires k > 0
    ensures Le(n, k)[1..] == Le(n / 256, k - 1)
  {
    forall i | 0 <= i < k - 1
      ensures Le(n, k)[1..][i] == Le(n / 256, k - 1)[i]
    {
      assert Le(n, k)[1..][i] == ByteAt(n, i + 1);
    }
  }

  lemma ByteInRange(m: int)
    requires 0 <= m < 256
    ensures (m as byte) as int == m
  {
  }

  /** Reading back what was written gives the value written. */
  lemma {:induction false} LeRoundTrip(n: nat, k: nat)
    requires n < Pow256(k)
    ensures FromLe(Le(n, k)) == n
  {
    if k > 0 {
      assert n / 256 < Pow256(k - 1);
      LeRoundTrip(n / 256, k - 1);
      var s := Le(n, k);
      LeTail(n, k);
      assert s[0] as nat == n % 256;
      assert FromLe(s) == n % 256 + 256 * (n / 256);
    }
  }

  /** `struct.pack` of a `k`-byte unsigned field: out-of-range values raise. */
  function Pack(n: int, k: nat): (r: Result<seq<byte>>)
    ensures r.Ok? <==> 0 <= n < Pow256(k)
    ensures r.Ok? ==> |r.value| == k && FromLe(r.value) == n && r.value == Le(n, k)
    ensures r.Err? ==> r.error == FieldOverflow
  {
    if 0 <= n < Pow256(k) then
      LeRoundTrip(n, k);
      Ok(Le(n, k))
    else Err(FieldOverflow)
  }

  /** `struct.unpack` of a `k`-byte unsigned field at `data[off:off+k]`: a short
      slice raises. */
  function Unpack(data: seq<byte>, off: nat, k: nat): (r: Result<nat>)
    ensures r.Ok? <==> off + k <= |data|
    ensures r.Ok? ==> r.value < Pow256(k) && r.value == FromLe(data[off..off + k])
    ensures r.Err? ==> r.error == Truncated
  {
    if off + k <= |data| then Ok(FromLe(data[off..off + k])) else Err(Truncated)
  }

  /** A field written at position `|pre|` is read back from there. */
  lemma UnpackAt(pre: seq<byte>, n: nat, k: nat, post: seq<byte>)
    requires n < Pow256(k)
    ensures Unpack(pre + Le(n, k) + post, |pre|, k) == Ok(n)
  {
    var d := pre + Le(n, k) + post;
    assert d[|pre|..|pre| + k] == Le(n, k);
    LeRoundTrip(n, k);
  }

  /** Python's `data[a:b]` for non-negative bounds: clipped, never failing. */
  function Slice(data: seq<byte>, a: nat, b: nat): (r: seq<byte>)
    ensures a <= b <= |data| ==> r == data[a..b]
    ensures a <= |data| <= b ==> r == data[a..]
    ensures b <= a || |data| <= a ==> r == []
    ensures |r| <= |data|
  {
    var lo := if a < |data| then a else |data|;
    var hi := if b < |data| then b else |data|;
    if lo <= hi then data[lo..hi] else []
  }

  function Zeros(n: nat): (r: seq<byte>)
    ensures |r| == n && forall i :: 0 <= i < n ==> r[i] == 0
  {
    seq(n, _ => 0)
  }

  function Min(a: int, b: int): int {
    if a < b then a else b
  }

  /** `s[:size - 1]` followed by NUL bytes up to `size`: a fixed-width,
      NUL-terminated text field. */
  function Field(s: seq<byte>, size: nat): (r: seq<byte>)
    requires size >= 1
    ensures |r| == size
    ensures r[..Min(|s|, size - 1)] == s[..Min(|s|, size - 1)]
    ensures forall i :: Min(|s|, size - 1) <= i < size ==> r[i] == 0
  {
    var t := s[..Min(|s|, size - 1)];
    t + Zeros(size - |t|)
  }

  /** `s.split(b'\x00', 1)[0]`: the bytes before the first NUL. */
  function CutAtNul(s: seq<byte>): (r: seq<byte>)
    ensures |r| <= |s| && r == s[..|r|]
    ensures forall i :: 0 <= i < |r| ==> r[i] != 0
    ensures |r| < |s| ==> s[|r|] == 0
  {
    if s == [] then []
    else if s[0] == 0 then []
    else [s[0]] + CutAtNul(s[1..])
  }

  /** The text in a fixed-width field reads back as the stored (truncated)
      text up to its first NUL. */
  lemma {:induction false} CutAtNulOfField(s: seq<byte>, size: nat)
    requires size >= 1
    ensures CutAtNul(Field(s, size)) == CutAtNul(s[..Min(|s|, size - 1)])
  {
    var t := s[..Min(|s|, size - 1)];
    assert Field(s, size) == t + Zeros(size - |t|);
    CutAtNulPadded(t, size - |t|);
  }

  lemma {:induction false} CutAtNulPadded(t: seq<byte>, n: nat)
    requires n >= 1
    ensures CutAtNul(t + Zeros(n)) == CutAtNul(t)
  {
    if t == [] {
      assert (t + Zeros(n))[0] == 0;
    } else {
      assert (t + Zeros(n))[0] == t[0];
      assert (t + Zeros(n))[1..] == t[1..] + Zeros(n);
      CutAtNulPadded(t[1..], n);
    }
  }

  /** Python's `sum(bs)` over a byte string. */
  function ByteSum(s: seq<byte>): (r: nat)
    ensures r <= 255 * |s|
  {
    if s == [] then 0 else s[0] as nat + ByteSum(s[1..])
  }

  lemma {:induction false} ByteSumAppend(a: seq<byte>, b: seq<byte>)
    ensures ByteSum(a + b) == ByteSum(a) + ByteSum(b)
  {
    if a != [] {
      assert (a + b)[1..] == a[1..] + b;
      ByteSumAppend(a[1..], b);
    } else {
      assert a + b == b;
    }
  }

  lemma SliceOfSlice(data: seq<byte>, a: nat, b: nat, c: nat, d: nat)
    requires a <= b <= |data| && c <= d <= b - a
    ensures data[a..b][c..d] == data[a + c..a + d]
  {
    assert forall i :: 0 <= i < d - c ==> data[a..b][c..d][i] == data[a + c + i];
  }

  /** A region of `data` holding `x + y` holds `x` then `y`. */
  lemma Split(data: seq<byte>, a: nat, x: seq<byte>, y: seq<byte>)
    requires a + |x| + |y| <= |data| && data[a..a + |x| + |y|] == x + y
    ensures data[a..a + |x|] == x && data[a + |x|..a + |x| + |y|] == y
  {
    var r := data[a..a + |x| + |y|];
    assert data[a..a + |x|] == r[..|x|];
    assert data[a + |x|..a + |x| + |y|] == r[|x|..];
  }

  /** The two halves of a concatenation. */
  lemma Halves(x: seq<byte>, y: seq<byte>)
    ensures (x + y)[..|x|] == x && (x + y)[|x|..] == y
  {
  }

  /** A field packed at `a .. a + k` of a region reads back as its value. */
  lemma ReadField(data: seq<byte>, a: nat, n: nat, k: nat)
    requires a + k <= |data| && data[a..a + k] == Le(n, k) && n < Pow256(k)
    ensures FromLe(data[a..a + k]) == n
  {
    LeRoundTrip(n, k);
  }

  lemma ByteField(n: nat)
    requires n < 256
    ensures Le(n, 1) == [n as byte]
  {
    assert Le(n, 1)[0] == ByteAt(n, 0);
  }

  /** The total length of a list of byte strings. */
  function TotalSize(fs: seq<seq<byte>>): nat {
    if fs == [] then 0 else TotalSize(fs[..|fs| - 1]) + |fs[|fs| - 1]|
  }

  /** The strings back to back, in list order. */
  function Concat(fs: seq<seq<byte>>): (r: seq<byte>)
    ensures |r| == TotalSize(fs)
  {
    if fs == [] then [] else Concat(fs[..|fs| - 1]) + fs[|fs| - 1]
  }

  lemma SliceLeft(a: seq<byte>, b: seq<byte>, i: nat, j: nat)
    requires i <= j <= |a|
    ensures (a + b)[i..j] == a[i..j]
  {
  }

  lemma SliceRight(a: seq<byte>, b: seq<byte>, i: nat, j: nat)
    requires |a| <= i <= j <= |a| + |b|
    ensures (a + b)[i..j] == b[i - |a|..j - |a|]
  {
  }

  /** Element `i` starts `TotalSize(fs[..i])` bytes in. */
  lemma {:induction false} TotalSizePrefix(fs: seq<seq<byte>>, i: nat)
    requires i < |fs|
    ensures TotalSize(fs[..i + 1]) == TotalSize(fs[..i]) + |fs[i]|
  {
    assert fs[..i + 1][..i] == fs[..i];
  }

  lemma {:induction false} TotalSizeMonotone(fs: seq<seq<byte>>, i: nat, j: nat)
    requires i <= j <= |fs|
    ensures TotalSize(fs[..i]) <= TotalSize(fs[..j])
    decreases j - i
  {
    if i < j {
      TotalSizePrefix(fs, j - 1);
      TotalSizeMonotone(fs, i, j - 1);
    }
  }

  /** Strings of one width `w`: the first `i` of them take `w * i` bytes. */
  lemma {:induction false} TotalSizeUniform(fs: seq<seq<byte>>, w: nat, i: nat)
    requires forall k :: 0 <= k < |fs| ==> |fs[k]| == w
    requires i <= |fs|
    ensures TotalSize(fs[..i]) == w * i
  {
    if i > 0 {
      TotalSizeUniform(fs, w, i - 1);
      TotalSizePrefix(fs, i - 1);
    }
  }

  /** Element `i` occupies its own slot of the concatenation. */
  lemma {:induction false} ConcatAt(fs: seq<seq<byte>>, i: nat)
    requires i < |fs|
    ensures TotalSize(fs[..i]) + |fs[i]| <= TotalSize(fs)
    ensures Concat(fs)[TotalSize(fs[..i])..TotalSize(fs[..i]) + |fs[i]|] == fs[i]
  {
    var n := |fs| - 1;
    assert fs[..n + 1] == fs;
    assert Concat(fs) == Concat(fs[..n]) + fs[n];
    TotalSizePrefix(fs, n);
    if i < n {
      ConcatAt(fs[..n], i);
      assert fs[..n][..i] == fs[..i];
      SliceLeft(Concat(fs[..n]), fs[n], TotalSize(fs[..i]), TotalSize(fs[..i]) + |fs[i]|);
    } else {
      SliceRight(Concat(fs[..n]), fs[n], TotalSize(fs[..i]), TotalSize(fs[..i]) + |fs[i]|);
    }
  }

  lemma ConcatSnoc(fs: seq<seq<byte>>, f: seq<byte>)
    ensures Concat(fs + [f]) == Concat(fs) + f
  {
    assert (fs + [f])[..|fs|] == fs;
  }

  lemma PrefixOfPrefix<T>(s: seq<T>, i: nat, k: nat)
    requires k <= i < |s|
    ensures s[..i + 1][..k] == s[..k] && s[..i][..k] == s[..k] && s[..i + 1][k] == s[k]
  {
  }

  /** Slot `i` of `n` slots of width `w` ends within `w * n`. */
  lemma MulBound(w: nat, i: nat, n: nat)
    requires i < n
    ensures w * i + w <= w * n
  {
    assert w * i + w == w * (i + 1);
  }

  /** In a list of strings of one width `w`, string `i` is bytes
      `w * i .. w * i + w` of the concatenation. */
  lemma UniformAt(fs: seq<seq<byte>>, w: nat, i: nat)
    requires forall k :: 0 <= k < |fs| ==> |fs[k]| == w
    requires i < |fs|
    ensures |Concat(fs)| == w * |fs|
    ensures w * i + w <= w * |fs|
    ensures Concat(fs)[w * i..w * i + w] == fs[i]
  {
    MulBound(w, i, |fs|);
    TotalSizeUniform(fs, w, i);
    TotalSizeUniform(fs, w, |fs|);
    assert fs[..|fs|] == fs;
    ConcatAt(fs, i);
  }

  /** Byte `j` of string `i` is byte `w * i + j` of the concatenation. */
  lemma UniformByte(fs: seq<seq<byte>>, w: nat, i: nat, j: nat)
    requires forall k :: 0 <= k < |fs| ==> |fs[k]| == w
    requires i < |fs| && j < w
    ensures |Concat(fs)| == w * |fs|
    ensures w * i + j < |Concat(fs)| && Concat(fs)[w * i + j] == fs[i][j]
  {
    UniformAt(fs, w, i);
    assert w * i + w <= w * |fs| by {
      assert w * (i + 1) <= w * |fs|;
    }
    assert Concat(fs)[w * i..w * i + w][j] == Concat(fs)[w * i + j];
  }

  lemma MulMonotone(a: nat, b: nat, c: nat, d: nat)
    requires a <= c && b <= d
    ensures a * b <= c * d
  {
    assert a * b <= c * b;
  }
}
