/** Reading back what `XTCWriter.write` produced. The reader recovers the
    frames, page count, reading direction and dimensions exactly; text fields
    come back truncated to their field width and cut at the first NUL. Of
    the chapter table only the first record comes back as written, because
    the writer stores the has-chapters flag as 1 and the reader uses that
    byte as the number of records; reading the count the metadata block
    holds instead brings every chapter back. */
module XtcRoundTrip {
  import opened Results
  import opened Bytes
  import opened XtcLayout
  import opened XtcWrite
  import opened XtcRead

  /** What a text field of width `size` reads back as. */
  function Stored(s: seq<byte>, size: nat): seq<byte>
    requires size >= 1
  {
    CutAtNul(s[..Min(|s|, size - 1)])
  }

  /** The metadata a reader recovers from a block written for `m` with `n`
      chapters. */
  function StoredMetadata(m: Metadata, n: nat): Metadata {
    Metadata(Stored(m.title, 128), Stored(m.author, 64), Stored(m.publisher, 32), Stored(m.language, 16),
             m.createTime, m.coverPage, n)
  }

  function StoredChapter(c: Chapter): Chapter {
    Chapter(Stored(c.name, 80), c.startPage, c.endPage)
  }

  /** The header fields the reader uses, read from a written header. */
  lemma HeaderOfImage(data: seq<byte>, pageCount: nat, direction: nat, hasMetadata: bool, hasChapters: bool,
                      metadataOffset: nat, indexOffset: nat, dataOffset: nat)
    requires |data| >= HEADER_SIZE
    requires data[..HEADER_SIZE] == HeaderImage(pageCount, direction, hasMetadata, hasChapters,
                                                metadataOffset, indexOffset, dataOffset)
    requires U16(pageCount) && U8(direction) && U64(metadataOffset) && U64(indexOffset)
    ensures FromLe(data[0..4]) == MAGIC
    ensures FromLe(data[6..8]) == pageCount
    ensures data[8] as int == direction
    ensures data[9] as nat == Flag(hasMetadata) && data[11] as nat == Flag(hasChapters)
    ensures FromLe(data[16..24]) == metadataOffset
    ensures FromLe(data[24..32]) == indexOffset
  {
    Pow256Values();
    var h := data[..HEADER_SIZE];
    var p0 := Le(MAGIC, 4);
    var p1 := p0 + Le(VERSION, 2);
    var p2 := p1 + Le(pageCount, 2);
    var p3 := p2 + Le(direction, 1);
    var p4 := p3 + Le(Flag(hasMetadata), 1);
    var p5 := p4 + Le(0, 1);
    var p6 := p5 + Le(Flag(hasChapters), 1);
    var p7 := p6 + Le(0, 4);
    var p8 := p7 + Le(metadataOffset, 8);
    var p9 := p8 + Le(indexOffset, 8);
    assert h == p9 + Le(dataOffset, 8) + Le(0, 8);
    Halves(p9 + Le(dataOffset, 8), Le(0, 8));
    Halves(p9, Le(dataOffset, 8));
    Halves(p8, Le(indexOffset, 8));
    Halves(p7, Le(metadataOffset, 8));
    Halves(p6, Le(0, 4));
    Halves(p5, Le(Flag(hasChapters), 1));
    Halves(p4, Le(0, 1));
    Halves(p3, Le(Flag(hasMetadata), 1));
    Halves(p2, Le(direction, 1));
    Halves(p1, Le(pageCount, 2));
    Halves(p0, Le(VERSION, 2));
    assert data[0..4] == p0;
    ReadField(data, 0, MAGIC, 4);
    assert data[6..8] == Le(pageCount, 2);
    ReadField(data, 6, pageCount, 2);
    ByteField(direction);
    ByteField(Flag(hasMetadata));
    ByteField(Flag(hasChapters));
    assert data[8] == p3[8] && data[9] == p4[9] && data[11] == p6[11];
    assert data[16..24] == Le(metadataOffset, 8);
    ReadField(data, 16, metadataOffset, 8);
    assert data[24..32] == Le(indexOffset, 8);
    ReadField(data, 24, indexOffset, 8);
  }

  /** A text field written with width `size` at `a` reads back as `Stored`. */
  lemma ReadText(data: seq<byte>, a: nat, s: seq<byte>, size: nat)
    requires size >= 1 && a + size <= |data| && data[a..a + size] == Field(s, size)
    ensures TextAt(data, a, size) == Stored(s, size)
  {
    CutAtNulOfField(s, size);
  }

  /** The fields of a metadata block laid out at `off`. */
  lemma MetadataFields(data: seq<byte>, off: nat, m: Metadata, n: nat)
    requires MetadataFits(m, n) && off + METADATA_SIZE <= |data|
    requires data[off..off + METADATA_SIZE] == MetadataImage(m, n)
    ensures data[off..off + 128] == Field(m.title, 128)
    ensures data[off + 128..off + 192] == Field(m.author, 64)
    ensures data[off + 192..off + 224] == Field(m.publisher, 32)
    ensures data[off + 224..off + 240] == Field(m.language, 16)
    ensures data[off + 240..off + 244] == Le(m.createTime, 4)
    ensures data[off + 244..off + 246] == Le(m.coverPage, 2)
    ensures data[off + 246..off + 248] == Le(n, 2)
  {
    var q0 := Field(m.title, 128);
    var q1 := q0 + Field(m.author, 64);
    var q2 := q1 + Field(m.publisher, 32);
    var q3 := q2 + Field(m.language, 16);
    var q4 := q3 + Le(m.createTime, 4);
    var q5 := q4 + Le(m.coverPage, 2);
    var q6 := q5 + Le(n, 2);
    Split(data, off, q6, Zeros(8));
    Split(data, off, q5, Le(n, 2));
    Split(data, off, q4, Le(m.coverPage, 2));
    Split(data, off, q3, Le(m.createTime, 4));
    Split(data, off, q2, Field(m.language, 16));
    Split(data, off, q1, Field(m.publisher, 32));
    Split(data, off, q0, Field(m.author, 64));
  }

  /** `_read_metadata` on a block `_write_metadata` produced. */
  lemma MetadataOfImage(data: seq<byte>, off: nat, m: Metadata, n: nat)
    requires MetadataFits(m, n) && off + METADATA_SIZE <= |data|
    requires data[off..off + METADATA_SIZE] == MetadataImage(m, n)
    ensures ReadMetadata(data, off) == Ok(StoredMetadata(m, n))
  {
    Pow256Values();
    MetadataFields(data, off, m, n);
    ReadText(data, off, m.title, 128);
    ReadText(data, off + 128, m.author, 64);
    ReadText(data, off + 192, m.publisher, 32);
    ReadText(data, off + 224, m.language, 16);
    ReadField(data, off + 240, m.createTime, 4);
    ReadField(data, off + 244, m.coverPage, 2);
    ReadField(data, off + 246, n, 2);
  }

  /** `_read_chapters` on one record `_write_chapters` produced. */
  lemma ChapterOfImage(data: seq<byte>, off: nat, c: Chapter)
    requires ChapterFits(c) && off + CHAPTER_SIZE <= |data|
    requires data[off..off + CHAPTER_SIZE] == ChapterImage(c)
    ensures ChapterOf(data, off) == StoredChapter(c)
  {
    Pow256Values();
    var q0 := Field(c.name, 80);
    var q1 := q0 + Le(c.startPage, 2);
    var q2 := q1 + Le(c.endPage, 2);
    Split(data, off, q2, Zeros(12));
    Split(data, off, q1, Le(c.endPage, 2));
    Split(data, off, q0, Le(c.startPage, 2));
    ReadText(data, off, c.name, 80);
    ReadField(data, off + 80, c.startPage, 2);
    ReadField(data, off + 82, c.endPage, 2);
  }

  /** An index entry reads back as the entry written. */
  lemma EntryOfImage(data: seq<byte>, off: nat, e: IndexEntry)
    requires U64(e.offset) && U32(e.size) && U16(e.width) && U16(e.height)
    requires off + INDEX_ENTRY_SIZE <= |data| && data[off..off + INDEX_ENTRY_SIZE] == EntryImage(e)
    ensures EntryOf(data, off) == e
  {
    Pow256Values();
    var q0 := Le(e.offset, 8);
    var q1 := q0 + Le(e.size, 4);
    var q2 := q1 + Le(e.width, 2);
    Split(data, off, q2, Le(e.height, 2));
    Split(data, off, q1, Le(e.width, 2));
    Split(data, off, q0, Le(e.size, 4));
    ReadField(data, off, e.offset, 8);
    ReadField(data, off + 8, e.size, 4);
    ReadField(data, off + 12, e.width, 2);
    ReadField(data, off + 14, e.height, 2);
  }

  /** The three parts of a written file: everything before the index, the
      index table, the frame data. */
  lemma ImageParts(w: XtcWriter, frames: seq<seq<byte>>)
    requires w.Fits(frames)
    ensures |w.Image(frames)| == w.DataOffset(|frames|) + TotalSize(frames)
    ensures w.Image(frames)[..w.IndexOffset()] == w.Prefix(|frames|)
    ensures w.Image(frames)[w.IndexOffset()..w.DataOffset(|frames|)]
            == IndexImage(frames, w.DataOffset(|frames|), w.width, w.height)
    ensures w.Image(frames)[w.DataOffset(|frames|)..] == Concat(frames)
  {
    var pre := w.Prefix(|frames|);
    var index := IndexImage(frames, w.DataOffset(|frames|), w.width, w.height);
    Halves(pre + index, Concat(frames));
    Halves(pre, index);
    SliceOfSlice(w.Image(frames), 0, |pre| + |index|, |pre|, |pre| + |index|);
  }

  /** The header, metadata block and chapter table of a written file. */
  lemma ImagePrefix(w: XtcWriter, frames: seq<seq<byte>>)
    requires w.Fits(frames)
    ensures |w.Image(frames)| >= w.IndexOffset() >= w.ChaptersOffset() >= HEADER_SIZE
    ensures w.Image(frames)[..HEADER_SIZE] == w.Header(|frames|)
    ensures w.HasMetadata() ==>
      w.Image(frames)[HEADER_SIZE..HEADER_SIZE + METADATA_SIZE] == MetadataImage(w.metadata, |w.chapters|)
    ensures w.HasChapters() ==>
      w.Image(frames)[w.ChaptersOffset()..w.IndexOffset()] == ChaptersImage(w.chapters)
  {
    ImageParts(w, frames);
    var data := w.Image(frames);
    var header := w.Header(|frames|);
    var block := if w.HasMetadata() then MetadataImage(w.metadata, |w.chapters|) else [];
    var table := if w.HasChapters() then ChaptersImage(w.chapters) else [];
    assert data[..w.IndexOffset()] == header + block + table;
    ThreeParts(data, header, block, table);
  }

  /** A region holding `x + y + z` at the start of `data` holds each in turn. */
  lemma ThreeParts(data: seq<byte>, x: seq<byte>, y: seq<byte>, z: seq<byte>)
    requires |x| + |y| + |z| <= |data| && data[..|x| + |y| + |z|] == x + y + z
    ensures data[..|x|] == x
    ensures data[|x|..|x| + |y|] == y
    ensures data[|x| + |y|..|x| + |y| + |z|] == z
  {
    assert data[0..|x| + |y| + |z|] == (x + y) + z;
    Split(data, 0, x + y, z);
    Split(data, 0, x, y);
  }

  /** Record `c` of a chapter table laid out at `co`. */
  lemma ChapterSlice(data: seq<byte>, co: nat, cs: seq<Chapter>, c: nat)
    requires forall k :: 0 <= k < |cs| ==> ChapterFits(cs[k])
    requires c < |cs|
    requires co + CHAPTER_SIZE * |cs| <= |data| && data[co..co + CHAPTER_SIZE * |cs|] == ChaptersImage(cs)
    ensures data[co + CHAPTER_SIZE * c..co + CHAPTER_SIZE * c + CHAPTER_SIZE] == ChapterImage(cs[c])
  {
    ChapterAt(cs, c);
    SliceOfSlice(data, co, co + CHAPTER_SIZE * |cs|, CHAPTER_SIZE * c, CHAPTER_SIZE * c + CHAPTER_SIZE);
  }

  /** Entry `i` of an index table laid out at `io`. */
  lemma EntryIn(data: seq<byte>, io: nat, fs: seq<seq<byte>>, start: nat, width: nat, height: nat, i: nat)
    requires i < |fs| && io + INDEX_ENTRY_SIZE * |fs| <= |data|
    requires data[io..io + INDEX_ENTRY_SIZE * |fs|] == IndexImage(fs, start, width, height)
    ensures data[io + INDEX_ENTRY_SIZE * i..io + INDEX_ENTRY_SIZE * i + INDEX_ENTRY_SIZE]
            == EntryImage(IndexEntry(start + TotalSize(fs[..i]), |fs[i]|, width, height))
  {
    IndexEntryAt(fs, start, width, height, i);
    SliceOfSlice(data, io, io + INDEX_ENTRY_SIZE * |fs|, INDEX_ENTRY_SIZE * i, INDEX_ENTRY_SIZE * i + INDEX_ENTRY_SIZE);
  }

  /** Frame `i` of frame data laid out from `d` to the end. */
  lemma FrameIn(data: seq<byte>, d: nat, fs: seq<seq<byte>>, i: nat)
    requires i < |fs| && d <= |data| && data[d..] == Concat(fs)
    ensures d + TotalSize(fs[..i]) + |fs[i]| <= |data|
    ensures data[d + TotalSize(fs[..i])..d + TotalSize(fs[..i]) + |fs[i]|] == fs[i]
  {
    ConcatAt(fs, i);
    var t := TotalSize(fs[..i]);
    assert data[d..] == data[d..|data|];
    SliceOfSlice(data, d, |data|, t, t + |fs[i]|);
  }

  /** Entry `i` of a written index table reads back as written. */
  lemma EntryOfImageAt(data: seq<byte>, io: nat, fs: seq<seq<byte>>, d: nat, width: nat, height: nat, i: nat)
    requires i < |fs| && io + INDEX_ENTRY_SIZE * |fs| <= |data|
    requires data[io..io + INDEX_ENTRY_SIZE * |fs|] == IndexImage(fs, d, width, height)
    requires EntriesFit(fs, d, |fs|) && U16(width) && U16(height)
    ensures EntryOf(data, io + INDEX_ENTRY_SIZE * i) == IndexEntry(d + TotalSize(fs[..i]), |fs[i]|, width, height)
  {
    var e := IndexEntry(d + TotalSize(fs[..i]), |fs[i]|, width, height);
    EntryIn(data, io, fs, d, width, height, i);
    EntriesFitAt(fs, d, |fs|, i);
    var off := io + INDEX_ENTRY_SIZE * i;
    assert data[off..off + INDEX_ENTRY_SIZE] == EntryImage(e);
    EntryOfImage(data, off, e);
  }

  /** The frame index entry `i` of a written index table points at. */
  lemma FrameOfImageAt(data: seq<byte>, io: nat, d: nat, fs: seq<seq<byte>>, width: nat, height: nat, i: nat)
    requires i < |fs| && io + INDEX_ENTRY_SIZE * |fs| <= d <= |data|
    requires data[io..io + INDEX_ENTRY_SIZE * |fs|] == IndexImage(fs, d, width, height)
    requires data[d..] == Concat(fs)
    requires EntriesFit(fs, d, |fs|) && U16(width) && U16(height)
    ensures FrameOf(data, EntryOf(data, io + INDEX_ENTRY_SIZE * i)) == fs[i]
  {
    EntryOfImageAt(data, io, fs, d, width, height, i);
    FrameIn(data, d, fs, i);
    var o := d + TotalSize(fs[..i]);
    assert FrameOf(data, IndexEntry(o, |fs[i]|, width, height)) == data[o..o + |fs[i]|];
  }

  /** The index table and frame data of a written file read back as the
      frames. */
  lemma FramesOfImage(data: seq<byte>, io: nat, d: nat, fs: seq<seq<byte>>, width: nat, height: nat)
    requires io + INDEX_ENTRY_SIZE * |fs| <= d <= |data|
    requires data[io..io + INDEX_ENTRY_SIZE * |fs|] == IndexImage(fs, d, width, height)
    requires data[d..] == Concat(fs)
    requires EntriesFit(fs, d, |fs|) && U16(width) && U16(height)
    ensures IndexReadable(data, io, |fs|) && FramesAt(data, io, |fs|) == fs
  {
    forall i | 0 <= i < |fs|
      ensures FramesAt(data, io, |fs|)[i] == fs[i]
    {
      FramesAtIndex(data, io, |fs|, i);
      FrameOfImageAt(data, io, d, fs, width, height, i);
    }
  }

  lemma FramesAtIndex(data: seq<byte>, io: nat, n: nat, i: nat)
    requires i < n && io + INDEX_ENTRY_SIZE * n <= |data|
    ensures io + INDEX_ENTRY_SIZE * i + INDEX_ENTRY_SIZE <= |data|
    ensures FramesAt(data, io, n)[i] == FrameOf(data, EntryOf(data, io + INDEX_ENTRY_SIZE * i))
  {
  }

  /** `IndexSpec` on a written file: the frames, and the first entry's
      dimensions stored. */
  lemma IndexOfImage(data: seq<byte>, io: nat, d: nat, fs: seq<seq<byte>>, width: nat, height: nat, st: ReaderState)
    requires io + INDEX_ENTRY_SIZE * |fs| <= d <= |data|
    requires data[io..io + INDEX_ENTRY_SIZE * |fs|] == IndexImage(fs, d, width, height)
    requires data[d..] == Concat(fs)
    requires EntriesFit(fs, d, |fs|) && U16(width) && U16(height)
    requires fs != [] && st.pageCount == |fs|
    ensures IndexSpec(st, data, io) == (st.(width := width, height := height), Ok(fs))
  {
    FramesOfImage(data, io, d, fs, width, height);
    EntryOfImageAt(data, io, fs, d, width, height, 0);
    assert io + INDEX_ENTRY_SIZE * 0 == io;
  }

  /** `BodySpec` on a header that flags metadata exactly when a block is
      at byte 48, and flags chapters with 0 or 1. */
  lemma BodyOfImage(data: seq<byte>, st: ReaderState, hasMetadata: bool, m: Metadata, hasChapters: bool, io: nat,
                    rule: CountRule)
    requires |data| >= HEADER_SIZE && st.pageCount >= 0
    requires data[9] as nat == Flag(hasMetadata) && data[11] as nat == Flag(hasChapters)
    requires FromLe(data[16..24]) == (if hasMetadata then HEADER_SIZE else 0)
    requires FromLe(data[24..32]) == io
    requires hasMetadata ==> ReadMetadata(data, HEADER_SIZE) == Ok(m)
    ensures BodySpec(st, data, rule)
            == TablesSpec(if hasMetadata then st.(metadata := Some(m)) else st, data,
                          HEADER_SIZE + (if hasMetadata then METADATA_SIZE else 0),
                          ChapterCount(Flag(hasChapters), if hasMetadata then Some(m) else None, rule), io)
  {
  }

  /** `TablesSpec` once all `n` chapter records at `co` can be read. */
  lemma TablesOfImage(data: seq<byte>, st: ReaderState, co: nat, n: nat, io: nat)
    requires st.pageCount >= 0
    requires ChaptersRead(data, co, n) == n
    ensures TablesSpec(st, data, co, n, io)
            == IndexSpec(st.(chapters := st.chapters + ChaptersAt(data, co, n)), data, io)
  {
  }

  /** The chapters as a reader recovers them: names cut like any text field. */
  function StoredChapters(cs: seq<Chapter>): (r: seq<Chapter>)
    ensures |r| == |cs|
    ensures forall i :: 0 <= i < |cs| ==> r[i] == StoredChapter(cs[i])
  {
    seq(|cs|, i requires 0 <= i < |cs| => StoredChapter(cs[i]))
  }

  /** The chapters a reader appends when reading a file written by `w`. As
      written (`FlagByte`) that is the first one only, since the
      has-chapters flag, 1, is read as the record count; with the metadata
      block's count (`BlockCount`) it is all of them. */
  function ChaptersReadBack(w: XtcWriter, rule: CountRule): seq<Chapter> {
    if !w.HasChapters() then []
    else if rule.FlagByte? then [StoredChapter(w.chapters[0])]
    else StoredChapters(w.chapters)
  }

  /** The reader's fields after decoding a file written by `w`: what the
      header and first index entry say, the metadata read back when a block
      was written, and the chapters of `ChaptersReadBack` appended. */
  function Decoded(w: XtcWriter, frames: seq<seq<byte>>, st: ReaderState, rule: CountRule): ReaderState {
    st.(metadata := if w.HasMetadata() then Some(StoredMetadata(w.metadata, |w.chapters|)) else st.metadata,
        chapters := st.chapters + ChaptersReadBack(w, rule),
        width := w.width, height := w.height,
        pageCount := |frames|, readingDirection := w.readingDirection)
  }

  /** The chapter table of a written file, read with the header's
      has-chapters byte as the count. */
  lemma ChaptersOfImage(w: XtcWriter, frames: seq<seq<byte>>, data: seq<byte>)
    requires w.Fits(frames) && data == w.Image(frames)
    ensures w.HasChapters() ==>
              && ChaptersRead(data, w.ChaptersOffset(), 1) == 1
              && ChaptersAt(data, w.ChaptersOffset(), 1) == [StoredChapter(w.chapters[0])]
  {
    ImagePrefix(w, frames);
    if w.HasChapters() {
      ChapterSlice(data, w.ChaptersOffset(), w.chapters, 0);
      FirstChapterRead(data, w.ChaptersOffset(), w.chapters[0]);
    }
  }

  /** A table at `co` whose first record is `c`, read with count 1. */
  lemma FirstChapterRead(data: seq<byte>, co: nat, c: Chapter)
    requires ChapterFits(c) && co + CHAPTER_SIZE <= |data|
    requires data[co..co + CHAPTER_SIZE] == ChapterImage(c)
    ensures ChaptersRead(data, co, 1) == 1
    ensures ChaptersAt(data, co, 1) == [StoredChapter(c)]
  {
    assert ChapterReadable(data, co, 0);
    ChaptersReadIs(data, co, 1, 1);
    ChapterOfImage(data, co, c);
  }

  /** The chapter table of a written file, read with the number of chapters
      as the count. */
  lemma AllChaptersOfImage(w: XtcWriter, frames: seq<seq<byte>>, data: seq<byte>)
    requires w.Fits(frames) && data == w.Image(frames)
    ensures w.HasChapters() ==>
              && ChaptersRead(data, w.ChaptersOffset(), |w.chapters|) == |w.chapters|
              && ChaptersAt(data, w.ChaptersOffset(), |w.chapters|) == StoredChapters(w.chapters)
  {
    ImagePrefix(w, frames);
    if w.HasChapters() {
      ChaptersOfTable(data, w.ChaptersOffset(), w.chapters);
    }
  }

  /** Every record of a chapter table laid out at `co` reads back. */
  lemma ChaptersOfTable(data: seq<byte>, co: nat, cs: seq<Chapter>)
    requires forall k :: 0 <= k < |cs| ==> ChapterFits(cs[k])
    requires co + CHAPTER_SIZE * |cs| <= |data| && data[co..co + CHAPTER_SIZE * |cs|] == ChaptersImage(cs)
    ensures ChaptersRead(data, co, |cs|) == |cs|
    ensures ChaptersAt(data, co, |cs|) == StoredChapters(cs)
  {
    forall j | 0 <= j < |cs|
      ensures ChapterReadable(data, co, j)
      ensures co + CHAPTER_SIZE * j + CHAPTER_SIZE <= |data|
      ensures ChapterOf(data, co + CHAPTER_SIZE * j) == StoredChapter(cs[j])
    {
      ChapterOfTable(data, co, cs, j);
    }
    ChaptersReadIs(data, co, |cs|, |cs|);
  }

  /** Record `j` of a written chapter table reads back. */
  lemma ChapterOfTable(data: seq<byte>, co: nat, cs: seq<Chapter>, j: nat)
    requires forall k :: 0 <= k < |cs| ==> ChapterFits(cs[k])
    requires j < |cs|
    requires co + CHAPTER_SIZE * |cs| <= |data| && data[co..co + CHAPTER_SIZE * |cs|] == ChaptersImage(cs)
    ensures ChapterReadable(data, co, j)
    ensures co + CHAPTER_SIZE * j + CHAPTER_SIZE <= |data|
    ensures ChapterOf(data, co + CHAPTER_SIZE * j) == StoredChapter(cs[j])
  {
    MulBound(CHAPTER_SIZE, j, |cs|);
    ChapterSlice(data, co, cs, j);
    ChapterOfImage(data, co + CHAPTER_SIZE * j, cs[j]);
  }

  /** The header of a written file read back. */
  lemma HeaderOfWritten(w: XtcWriter, frames: seq<seq<byte>>)
    requires w.Fits(frames)
    ensures var data := w.Image(frames);
            && |data| >= w.DataOffset(|frames|) >= w.IndexOffset() >= HEADER_SIZE
            && FromLe(data[0..4]) == MAGIC
            && FromLe(data[6..8]) == |frames|
            && data[8] as int == w.readingDirection
            && data[9] as nat == Flag(w.HasMetadata()) && data[11] as nat == Flag(w.HasChapters())
            && FromLe(data[16..24]) == (if w.HasMetadata() then HEADER_SIZE else 0)
            && FromLe(data[24..32]) == w.IndexOffset()
  {
    ImageParts(w, frames);
    ImagePrefix(w, frames);
    HeaderOfImage(w.Image(frames), |frames|, w.readingDirection, w.HasMetadata(), w.HasChapters(),
                  w.MetadataOffset(), w.IndexOffset(), w.DataOffset(|frames|));
  }

  /** `decode` up to the end of the header. */
  lemma DecodeHeader(w: XtcWriter, frames: seq<seq<byte>>, st: ReaderState, rule: CountRule)
    requires w.Fits(frames)
    ensures DecodeSpec(st, w.Image(frames), rule)
            == BodySpec(st.(pageCount := |frames|, readingDirection := w.readingDirection), w.Image(frames), rule)
  {
    HeaderOfWritten(w, frames);
  }

  /** The metadata block a reader finds in a file written by `w`. */
  function BlockOf(w: XtcWriter): Option<Metadata> {
    if w.HasMetadata() then Some(StoredMetadata(w.metadata, |w.chapters|)) else None
  }

  /** `decode`'s metadata step on a written file. */
  lemma DecodeBody(w: XtcWriter, frames: seq<seq<byte>>, st: ReaderState, rule: CountRule)
    requires w.Fits(frames) && st.pageCount >= 0
    ensures BodySpec(st, w.Image(frames), rule)
            == TablesSpec(if w.HasMetadata() then st.(metadata := BlockOf(w)) else st,
                          w.Image(frames), w.ChaptersOffset(),
                          ChapterCount(Flag(w.HasChapters()), BlockOf(w), rule), w.IndexOffset())
  {
    HeaderOfWritten(w, frames);
    BlockOfWritten(w, frames);
    BodyOfImage(w.Image(frames), st, w.HasMetadata(), StoredMetadata(w.metadata, |w.chapters|),
                w.HasChapters(), w.IndexOffset(), rule);
  }

  /** A written metadata block reads back as `BlockOf(w)`. */
  lemma BlockOfWritten(w: XtcWriter, frames: seq<seq<byte>>)
    requires w.Fits(frames)
    ensures w.HasMetadata() ==> ReadMetadata(w.Image(frames), HEADER_SIZE) == Ok(StoredMetadata(w.metadata, |w.chapters|))
  {
    if w.HasMetadata() {
      ImagePrefix(w, frames);
      MetadataOfImage(w.Image(frames), HEADER_SIZE, w.metadata, |w.chapters|);
    }
  }

  /** `decode`'s chapter step on a written file. */
  lemma DecodeTables(w: XtcWriter, frames: seq<seq<byte>>, st: ReaderState, rule: CountRule)
    requires w.Fits(frames) && st.pageCount >= 0
    ensures TablesSpec(st, w.Image(frames), w.ChaptersOffset(),
                       ChapterCount(Flag(w.HasChapters()), BlockOf(w), rule), w.IndexOffset())
            == IndexSpec(st.(chapters := st.chapters + ChaptersReadBack(w, rule)), w.Image(frames), w.IndexOffset())
  {
    var data := w.Image(frames);
    var n := ChapterCount(Flag(w.HasChapters()), BlockOf(w), rule);
    if !w.HasChapters() {
      assert n == 0 && ChaptersAt(data, w.ChaptersOffset(), 0) == [];
    } else if rule.FlagByte? {
      ChaptersOfImage(w, frames, data);
    } else {
      assert n == |w.chapters|;
      AllChaptersOfImage(w, frames, data);
    }
    TablesOfImage(data, st, w.ChaptersOffset(), n, w.IndexOffset());
  }

  /** `decode`'s index step on a written file. */
  lemma DecodeIndex(w: XtcWriter, frames: seq<seq<byte>>, st: ReaderState)
    requires w.Fits(frames) && frames != [] && st.pageCount == |frames|
    ensures IndexSpec(st, w.Image(frames), w.IndexOffset()) == (st.(width := w.width, height := w.height), Ok(frames))
  {
    ImageParts(w, frames);
    IndexOfImage(w.Image(frames), w.IndexOffset(), w.DataOffset(|frames|), frames, w.width, w.height, st);
  }

  /** Decoding what `write` produced gives back the frames, and leaves the
      reader's fields as `Decoded` says. */
  lemma WriteThenDecode(w: XtcWriter, frames: seq<seq<byte>>, bytes: seq<byte>, st: ReaderState, rule: CountRule)
    requires w.WriteSpec(frames) == Ok(bytes)
    ensures DecodeSpec(st, bytes, rule) == (Decoded(w, frames, st, rule), Ok(frames))
  {
    assert frames != [] && w.Fits(frames) && bytes == w.Image(frames);
    var st2 := st.(pageCount := |frames|, readingDirection := w.readingDirection);
    DecodeHeader(w, frames, st, rule);
    DecodeBody(w, frames, st2, rule);
    var st3 := if w.HasMetadata() then st2.(metadata := BlockOf(w)) else st2;
    DecodeTables(w, frames, st3, rule);
    DecodeIndex(w, frames, st3.(chapters := st3.chapters + ChaptersReadBack(w, rule)));
  }

  /** Of two or more chapters written, the reader as written gets back one:
      the record count it uses is the has-chapters flag, while the metadata
      block holds the true count. */
  lemma ChapterCountQuirk(w: XtcWriter, frames: seq<seq<byte>>, bytes: seq<byte>, st: ReaderState)
    requires w.WriteSpec(frames) == Ok(bytes) && |w.chapters| >= 2
    ensures var (st1, _) := DecodeSpec(st, bytes, FlagByte);
            && st1.chapters == st.chapters + [StoredChapter(w.chapters[0])]
            && |st1.chapters| < |st.chapters| + |w.chapters|
            && st1.metadata.Some? && st1.metadata.value.chapterCount == |w.chapters|
  {
    WriteThenDecode(w, frames, bytes, st, FlagByte);
  }

  /** Reading the metadata block's chapter count of records, every chapter
      written comes back, in order, with its page range. */
  lemma AllChaptersReadBack(w: XtcWriter, frames: seq<seq<byte>>, bytes: seq<byte>, st: ReaderState)
    requires w.WriteSpec(frames) == Ok(bytes)
    ensures var (st1, r) := DecodeSpec(st, bytes, BlockCount);
            && r == Ok(frames)
            && |st1.chapters| == |st.chapters| + |w.chapters|
            && st1.chapters[..|st.chapters|] == st.chapters
            && (forall i :: 0 <= i < |w.chapters| ==>
                  st1.chapters[|st.chapters| + i] == StoredChapter(w.chapters[i])
                  && st1.chapters[|st.chapters| + i].startPage == w.chapters[i].startPage
                  && st1.chapters[|st.chapters| + i].endPage == w.chapters[i].endPage)
  {
    WriteThenDecode(w, frames, bytes, st, BlockCount);
    ChaptersOfDecoded(w, frames, st);
  }

  /** The chapters of `Decoded` under the metadata block's count. */
  lemma ChaptersOfDecoded(w: XtcWriter, frames: seq<seq<byte>>, st: ReaderState)
    ensures var cs := Decoded(w, frames, st, BlockCount).chapters;
            && |cs| == |st.chapters| + |w.chapters|
            && cs[..|st.chapters|] == st.chapters
            && (forall i :: 0 <= i < |w.chapters| ==>
                  cs[|st.chapters| + i] == StoredChapter(w.chapters[i])
                  && cs[|st.chapters| + i].startPage == w.chapters[i].startPage
                  && cs[|st.chapters| + i].endPage == w.chapters[i].endPage)
  {
    var back := ChaptersReadBack(w, BlockCount);
    assert back == StoredChapters(w.chapters) by {
      if !w.HasChapters() {
        assert w.chapters == [];
      }
    }
    Appended(st.chapters, back);
  }

  /** The records appended after `prefix` sit at `|prefix| + i`. */
  lemma Appended(prefix: seq<Chapter>, tail: seq<Chapter>)
    ensures |prefix + tail| == |prefix| + |tail|
    ensures (prefix + tail)[..|prefix|] == prefix
    ensures forall i :: 0 <= i < |tail| ==> (prefix + tail)[|prefix| + i] == tail[i]
  {
  }
}
