/** The byte layout of an XTC container: the 48-byte header, the 256-byte
    metadata block, 96-byte chapter records, 16-byte index entries and the
    concatenated frame bytes, as images of the writer's fields. */
module XtcLayout {
  import opened Bytes

  const MAGIC: nat := 0x0043_5458   // "XTC\0" read as a little-endian u32
  const VERSION: nat := 0x0100
  const HEADER_SIZE: nat := 48
  const METADATA_SIZE: nat := 256
  const CHAPTER_SIZE: nat := 96
  const INDEX_ENTRY_SIZE: nat := 16

  const DIR_LEFT_TO_RIGHT: int := 0
  const DIR_RIGHT_TO_LEFT: int := 1
  const DIR_TOP_TO_BOTTOM: int := 2

  /** Container metadata; text fields are their UTF-8 bytes. */
  datatype Metadata = Metadata(
    title: seq<byte>,
    author: seq<byte>,
    publisher: seq<byte>,
    language: seq<byte>,
    createTime: int,
    coverPage: int,     // 0xFFFF: no cover
    chapterCount: int)

  const EN_US: seq<byte> := [0x65, 0x6E, 0x2D, 0x55, 0x53]

  /** `XTCMetadata(create_time=t)`: every other field at its default. */
  function DefaultMetadata(createTime: int): (m: Metadata)
    ensures m.title == [] && m.author == [] && m.publisher == []
    ensures m.language == EN_US && m.coverPage == 0xFFFF && m.chapterCount == 0
    ensures m.createTime == createTime
  {
    Metadata([], [], [], EN_US, createTime, 0xFFFF, 0)
  }

  /** A chapter: 0-based inclusive page range. */
  datatype Chapter = Chapter(name: seq<byte>, startPage: int, endPage: int)

  function Flag(b: bool): nat {
    if b then 1 else 0
  }

  /** The 48-byte header: magic, version, page count, direction, the
      has-metadata / has-thumbnails / has-chapters flags, current page and the
      four u64 offsets (thumbnail offset always 0). */
  function HeaderImage(pageCount: nat, direction: nat, hasMetadata: bool, hasChapters: bool,
                       metadataOffset: nat, indexOffset: nat, dataOffset: nat): (r: seq<byte>)
    ensures |r| == HEADER_SIZE
  {
    Le(MAGIC, 4) + Le(VERSION, 2) + Le(pageCount, 2) + Le(direction, 1)
    + Le(Flag(hasMetadata), 1) + Le(0, 1) + Le(Flag(hasChapters), 1) + Le(0, 4)
    + Le(metadataOffset, 8) + Le(indexOffset, 8) + Le(dataOffset, 8) + Le(0, 8)
  }

  predicate MetadataFits(m: Metadata, chapterCount: int) {
    U32(m.createTime) && U16(m.coverPage) && U16(chapterCount)
  }

  /** The 256-byte metadata block. The chapter count stored is the writer's
      number of chapters, not the `chapterCount` field of `m`. */
  function MetadataImage(m: Metadata, chapterCount: nat): (r: seq<byte>)
    requires MetadataFits(m, chapterCount)
    ensures |r| == METADATA_SIZE
  {
    Field(m.title, 128) + Field(m.author, 64) + Field(m.publisher, 32) + Field(m.language, 16)
    + Le(m.createTime, 4) + Le(m.coverPage, 2) + Le(chapterCount, 2) + Zeros(8)
  }

  predicate ChapterFits(c: Chapter) {
    U16(c.startPage) && U16(c.endPage)
  }

  /** One 96-byte chapter record: name, start page, end page, 12 reserved bytes. */
  function ChapterImage(c: Chapter): (r: seq<byte>)
    requires ChapterFits(c)
    ensures |r| == CHAPTER_SIZE
  {
    Field(c.name, 80) + Le(c.startPage, 2) + Le(c.endPage, 2) + Zeros(12)
  }

  /** The chapter records in list order. */
  function ChaptersImage(cs: seq<Chapter>): (r: seq<byte>)
    requires forall i :: 0 <= i < |cs| ==> ChapterFits(cs[i])
    ensures |r| == CHAPTER_SIZE * |cs|
  {
    var rs := seq(|cs|, i requires 0 <= i < |cs| => ChapterImage(cs[i]));
    TotalSizeUniform(rs, CHAPTER_SIZE, |rs|);
    assert rs[..|rs|] == rs;
    Concat(rs)
  }

  /** One index table entry: where a frame is, how long it is, its size in
      pixels. */
  datatype IndexEntry = IndexEntry(offset: nat, size: nat, width: nat, height: nat)

  /** The 16 bytes of an index entry. */
  function EntryImage(e: IndexEntry): (r: seq<byte>)
    ensures |r| == INDEX_ENTRY_SIZE
  {
    Le(e.offset, 8) + Le(e.size, 4) + Le(e.width, 2) + Le(e.height, 2)
  }

  /** The first `n` index entries of frames laid out from byte `start` on
      fit their fields: each size in a u32, each offset in a u64. */
  predicate EntriesFit(fs: seq<seq<byte>>, start: nat, n: nat)
    requires n <= |fs|
  {
    n == 0 || (EntriesFit(fs, start, n - 1) && U32(|fs[n - 1]|) && U64(start + TotalSize(fs[..n - 1])))
  }

  lemma {:induction false} EntriesFitAt(fs: seq<seq<byte>>, start: nat, n: nat, i: nat)
    requires i < n <= |fs| && EntriesFit(fs, start, n)
    ensures U32(|fs[i]|) && U64(start + TotalSize(fs[..i]))
    decreases n
  {
    if i < n - 1 {
      EntriesFitAt(fs, start, n - 1, i);
    }
  }

  /** The entries of frames laid out back to back from byte `start` on. */
  function Entries(fs: seq<seq<byte>>, start: nat, width: nat, height: nat): (r: seq<IndexEntry>)
    ensures |r| == |fs|
  {
    seq(|fs|, i requires 0 <= i < |fs| => IndexEntry(start + TotalSize(fs[..i]), |fs[i]|, width, height))
  }

  function EntriesImage(es: seq<IndexEntry>): (r: seq<byte>)
    ensures |r| == INDEX_ENTRY_SIZE * |es|
  {
    var rs := seq(|es|, i requires 0 <= i < |es| => EntryImage(es[i]));
    TotalSizeUniform(rs, INDEX_ENTRY_SIZE, |rs|);
    assert rs[..|rs|] == rs;
    Concat(rs)
  }

  /** The index table of frames laid out back to back from byte `start` on. */
  function IndexImage(fs: seq<seq<byte>>, start: nat, width: nat, height: nat): (r: seq<byte>)
    ensures |r| == INDEX_ENTRY_SIZE * |fs|
  {
    EntriesImage(Entries(fs, start, width, height))
  }

  /** The entries of one more frame: one more entry, at the end. */
  lemma EntriesSnoc(fs: seq<seq<byte>>, start: nat, width: nat, height: nat, i: nat)
    requires i < |fs|
    ensures Entries(fs[..i + 1], start, width, height)
         == Entries(fs[..i], start, width, height) + [IndexEntry(start + TotalSize(fs[..i]), |fs[i]|, width, height)]
  {
    var long := Entries(fs[..i + 1], start, width, height);
    var short := Entries(fs[..i], start, width, height);
    var x := IndexEntry(start + TotalSize(fs[..i]), |fs[i]|, width, height);
    forall k | 0 <= k < i
      ensures long[k] == short[k]
    {
      PrefixOfPrefix(fs, i, k);
    }
    assert long[i] == x by {
      PrefixOfPrefix(fs, i, i);
    }
    assert long == short + [x];
  }

  lemma EntriesImageSnoc(es: seq<IndexEntry>, e: IndexEntry)
    ensures EntriesImage(es + [e]) == EntriesImage(es) + EntryImage(e)
  {
    var long := seq(|es| + 1, k requires 0 <= k < |es| + 1 => EntryImage((es + [e])[k]));
    var short := seq(|es|, k requires 0 <= k < |es| => EntryImage(es[k]));
    assert long == short + [EntryImage(e)];
    ConcatSnoc(short, EntryImage(e));
  }

  /** The index table grows by one entry per frame, in frame order. */
  lemma IndexImageSnoc(fs: seq<seq<byte>>, start: nat, width: nat, height: nat, i: nat)
    requires i < |fs|
    ensures IndexImage(fs[..i + 1], start, width, height)
         == IndexImage(fs[..i], start, width, height)
            + EntryImage(IndexEntry(start + TotalSize(fs[..i]), |fs[i]|, width, height))
  {
    EntriesSnoc(fs, start, width, height, i);
    EntriesImageSnoc(Entries(fs[..i], start, width, height), IndexEntry(start + TotalSize(fs[..i]), |fs[i]|, width, height));
  }

  /** The chapter table grows by one record per chapter, in list order. */
  lemma ChaptersImageSnoc(cs: seq<Chapter>, i: nat)
    requires i < |cs|
    requires forall k :: 0 <= k <= i ==> ChapterFits(cs[k])
    ensures ChaptersImage(cs[..i + 1]) == ChaptersImage(cs[..i]) + ChapterImage(cs[i])
  {
    var long := seq(i + 1, k requires 0 <= k < i + 1 => ChapterImage(cs[..i + 1][k]));
    var short := seq(i, k requires 0 <= k < i => ChapterImage(cs[..i][k]));
    assert long == short + [ChapterImage(cs[i])];
    ConcatSnoc(short, ChapterImage(cs[i]));
  }

  /** Entry `i` of the index table records frame `i`'s offset and size. */
  lemma IndexEntryAt(fs: seq<seq<byte>>, start: nat, width: nat, height: nat, i: nat)
    requires i < |fs|
    ensures |IndexImage(fs, start, width, height)| == INDEX_ENTRY_SIZE * |fs|
    ensures IndexImage(fs, start, width, height)[16 * i..16 * i + 16]
         == EntryImage(IndexEntry(start + TotalSize(fs[..i]), |fs[i]|, width, height))
  {
    var es := Entries(fs, start, width, height);
    EntriesImageAt(es, i);
    assert es[i] == IndexEntry(start + TotalSize(fs[..i]), |fs[i]|, width, height);
  }

  /** Entry `i` of a table of entries is bytes `16 * i .. 16 * i + 16`. */
  lemma EntriesImageAt(es: seq<IndexEntry>, i: nat)
    requires i < |es|
    ensures EntriesImage(es)[16 * i..16 * i + 16] == EntryImage(es[i])
  {
    UniformAt(seq(|es|, k requires 0 <= k < |es| => EntryImage(es[k])), 16, i);
  }

  /** Record `i` of the chapter table is chapter `i`. */
  lemma ChapterAt(cs: seq<Chapter>, i: nat)
    requires forall k :: 0 <= k < |cs| ==> ChapterFits(cs[k])
    requires i < |cs|
    ensures |ChaptersImage(cs)| == CHAPTER_SIZE * |cs|
    ensures ChaptersImage(cs)[96 * i..96 * i + 96] == ChapterImage(cs[i])
  {
    UniformAt(seq(|cs|, k requires 0 <= k < |cs| => ChapterImage(cs[k])), 96, i);
  }
}
