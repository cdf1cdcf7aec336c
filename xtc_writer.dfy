/** `XTCWriter`: a container writer configured once at construction, whose
    `write` lays header, metadata, chapter table, index table and frame bytes
    out back to back. The output file is modelled as the byte sequence the
    writer produces. */
module XtcWrite {
  import opened Results
  import opened Bytes
  import opened Text
  import opened XtcLayout

  /** The writer's fields after construction. */
  datatype XtcWriter = XtcWriter(
    width: int,
    height: int,
    readingDirection: int,
    metadata: Metadata,
    chapters: seq<Chapter>,
    pageFormat: string)
  {
    predicate HasChapters() {
      |chapters| > 0
    }

    /** The metadata block is written when there is a title, an author or a
        chapter (the chapter count lives in the metadata block). */
    predicate HasMetadata() {
      metadata.title != [] || metadata.author != [] || HasChapters()
    }

    function MetadataOffset(): nat {
      if HasMetadata() then HEADER_SIZE else 0
    }

    function ChaptersOffset(): nat {
      HEADER_SIZE + (if HasMetadata() then METADATA_SIZE else 0)
    }

    function IndexOffset(): nat {
      ChaptersOffset() + CHAPTER_SIZE * |chapters|
    }

    function DataOffset(pageCount: nat): nat {
      IndexOffset() + INDEX_ENTRY_SIZE * pageCount
    }

    /** Every field `write` packs is within its width. */
    predicate Fits(frames: seq<seq<byte>>) {
      && U16(|frames|)
      && U8(readingDirection)
      && U64(DataOffset(|frames|))
      && (HasMetadata() ==> MetadataFits(metadata, |chapters|))
      && (forall c :: 0 <= c < |chapters| ==> ChapterFits(chapters[c]))
      && U16(width) && U16(height)
      && EntriesFit(frames, DataOffset(|frames|), |frames|)
    }

    function Header(pageCount: nat): (r: seq<byte>)
      requires U8(readingDirection)
      ensures |r| == HEADER_SIZE
    {
      HeaderImage(pageCount, readingDirection, HasMetadata(), HasChapters(),
                  MetadataOffset(), IndexOffset(), DataOffset(pageCount))
    }

    /** Header, metadata block and chapter table: everything before the index. */
    function Prefix(pageCount: nat): (r: seq<byte>)
      requires U8(readingDirection)
      requires HasMetadata() ==> MetadataFits(metadata, |chapters|)
      requires forall c :: 0 <= c < |chapters| ==> ChapterFits(chapters[c])
      ensures |r| == IndexOffset()
    {
      Header(pageCount)
      + (if HasMetadata() then MetadataImage(metadata, |chapters|) else [])
      + (if HasChapters() then ChaptersImage(chapters) else [])
    }

    /** The bytes of the file `write(frames)` produces. */
    function Image(frames: seq<seq<byte>>): (r: seq<byte>)
      requires Fits(frames)
    {
      Prefix(|frames|) + IndexImage(frames, DataOffset(|frames|), width, height) + Concat(frames)
    }

    /** What `write(frames)` does: refuse an empty list, fail on a field out
        of range, or produce the image. */
    function WriteSpec(frames: seq<seq<byte>>): Result<seq<byte>> {
      if frames == [] then Err(NoFrames)
      else if Fits(frames) then Ok(Image(frames))
      else Err(FieldOverflow)
    }

    /** `_write_header`: only the page count, the direction and the two
        table offsets can be out of range. */
    function HeaderBytes(pageCount: nat): (r: Result<seq<byte>>)
      ensures r.Ok? <==> U16(pageCount) && U8(readingDirection) && U64(DataOffset(pageCount))
      ensures r.Ok? ==> r.value == Header(pageCount)
      ensures r.Err? ==> r.error == FieldOverflow
    {
      Pow256Values();
      var count :- Pack(pageCount, 2);
      var direction :- Pack(readingDirection, 1);
      var indexOffset :- Pack(IndexOffset(), 8);
      var dataOffset :- Pack(DataOffset(pageCount), 8);
      Ok(Le(MAGIC, 4) + Le(VERSION, 2) + count + direction + Le(Flag(HasMetadata()), 1) + Le(0, 1)
         + Le(Flag(HasChapters()), 1) + Le(0, 4) + Le(MetadataOffset(), 8) + indexOffset + dataOffset
         + Le(0, 8))
    }

    /** `_write_metadata`. */
    function MetadataBytes(): (r: Result<seq<byte>>)
      ensures r.Ok? <==> MetadataFits(metadata, |chapters|)
      ensures r.Ok? ==> r.value == MetadataImage(metadata, |chapters|)
      ensures r.Err? ==> r.error == FieldOverflow
    {
      Pow256Values();
      var createTime :- Pack(metadata.createTime, 4);
      var coverPage :- Pack(metadata.coverPage, 2);
      var chapterCount :- Pack(|chapters|, 2);
      Ok(Field(metadata.title, 128) + Field(metadata.author, 64) + Field(metadata.publisher, 32)
         + Field(metadata.language, 16) + createTime + coverPage + chapterCount + Zeros(8))
    }

    /** `_write_chapters`: the records of every chapter, in list order. */
    method WriteChapters() returns (r: Result<seq<byte>>)
      ensures r.Ok? <==> forall c :: 0 <= c < |chapters| ==> ChapterFits(chapters[c])
      ensures r.Ok? ==> r.value == ChaptersImage(chapters)
      ensures r.Err? ==> r.error == FieldOverflow
    {
      var out: seq<byte> := [];
      var i := 0;
      while i < |chapters|
        invariant 0 <= i <= |chapters|
        invariant forall c :: 0 <= c < i ==> ChapterFits(chapters[c])
        invariant out == ChaptersImage(chapters[..i])
      {
        var record :- ChapterBytes(chapters[i]);
        ChaptersImageSnoc(chapters, i);
        out := out + record;
        i := i + 1;
      }
      assert chapters[..i] == chapters;
      return Ok(out);
    }

    /** `write(output_path, frame_data_list)`: header, optional metadata and
        chapters, the index table, then the frames. */
    method Write(frames: seq<seq<byte>>) returns (r: Result<seq<byte>>)
      ensures r == WriteSpec(frames)
    {
      if frames == [] {
        return Err(NoFrames);
      }
      var out :- WritePrefix(|frames|);
      var index :- WriteIndex(frames, DataOffset(|frames|));
      out := out + index;
      var data := WriteFrames(frames);
      out := out + data;
      return Ok(out);
    }

    /** The header, then the metadata block and the chapter table when
        present: everything `write` puts before the index table. */
    method WritePrefix(pageCount: nat) returns (r: Result<seq<byte>>)
      ensures r.Ok? <==> && U16(pageCount) && U8(readingDirection) && U64(DataOffset(pageCount))
                         && (HasMetadata() ==> MetadataFits(metadata, |chapters|))
                         && (forall c :: 0 <= c < |chapters| ==> ChapterFits(chapters[c]))
      ensures r.Ok? ==> r.value == Prefix(pageCount) && |r.value| == IndexOffset()
      ensures r.Err? ==> r.error == FieldOverflow
    {
      var header :- HeaderBytes(pageCount);
      var out := header;
      if HasMetadata() {
        var block :- MetadataBytes();
        out := out + block;
      }
      if HasChapters() {
        var table :- WriteChapters();
        out := out + table;
      }
      return Ok(out);
    }

    /** The index loop of `write`: one entry per frame, with a running data
        offset starting at `start`. */
    method WriteIndex(frames: seq<seq<byte>>, start: nat) returns (r: Result<seq<byte>>)
      requires frames != []
      ensures r.Ok? <==> U16(width) && U16(height) && EntriesFit(frames, start, |frames|)
      ensures r.Ok? ==> U16(width) && U16(height) && r.value == IndexImage(frames, start, width, height)
      ensures r.Err? ==> r.error == FieldOverflow
    {
      var out: seq<byte> := [];
      var current := start;
      var i := 0;
      while i < |frames|
        invariant 0 <= i <= |frames|
        invariant current == start + TotalSize(frames[..i])
        invariant EntriesFit(frames, start, i)
        invariant i > 0 ==> U16(width) && U16(height)
        invariant i == 0 ==> out == []
        invariant i > 0 ==> out == IndexImage(frames[..i], start, width, height)
      {
        var entry := EntryBytes(current, |frames[i]|, width, height);
        if entry.Err? {
          if U16(width) && U16(height) && EntriesFit(frames, start, |frames|) {
            EntriesFitAt(frames, start, |frames|, i);
            assert false;
          }
          return Err(FieldOverflow);
        }
        IndexImageSnoc(frames, start, width, height, i);
        out := out + entry.value;
        TotalSizePrefix(frames, i);
        current := current + |frames[i]|;
        i := i + 1;
      }
      assert frames[..i] == frames;
      return Ok(out);
    }
  }

  /** `XTCWriter(width, height, reading_direction, metadata, chapters,
      page_format)`, with `now` standing for `time.time()`: the page format
      is lower-cased and must be `xtg` or `xth`; without metadata a default
      block stamped `now` is used; with chapters the metadata's chapter
      count is set to their number. */
  function NewWriter(width: int, height: int, readingDirection: int, metadata: Option<Metadata>,
                     chapters: seq<Chapter>, pageFormat: string, now: int): (r: Result<XtcWriter>)
    ensures r.Ok? <==> Lower(pageFormat) == "xtg" || Lower(pageFormat) == "xth"
    ensures r.Err? ==> r.error == InvalidPageFormat
    ensures r.Ok? ==> && r.value.width == width && r.value.height == height
                      && r.value.readingDirection == readingDirection
                      && r.value.chapters == chapters && r.value.pageFormat == Lower(pageFormat)
    ensures r.Ok? ==> var given := if metadata.Some? then metadata.value else DefaultMetadata(now);
                      && r.value.metadata.(chapterCount := given.chapterCount) == given
                      && r.value.metadata.chapterCount == (if chapters != [] then |chapters| else given.chapterCount)
  {
    var m := if metadata.Some? then metadata.value else DefaultMetadata(now);
    var format := Lower(pageFormat);
    if format != "xtg" && format != "xth" then Err(InvalidPageFormat)
    else Ok(XtcWriter(width, height, readingDirection,
                      if chapters != [] then m.(chapterCount := |chapters|) else m, chapters, format))
  }

  /** The data loop of `write`: the frames back to back. */
  method WriteFrames(frames: seq<seq<byte>>) returns (r: seq<byte>)
    ensures r == Concat(frames)
  {
    r := [];
    var i := 0;
    while i < |frames|
      invariant 0 <= i <= |frames|
      invariant r == Concat(frames[..i])
    {
      ConcatSnoc(frames[..i], frames[i]);
      assert frames[..i + 1] == frames[..i] + [frames[i]];
      r := r + frames[i];
      i := i + 1;
    }
    assert frames[..i] == frames;
  }

  /** One chapter record, packed. */
  function ChapterBytes(c: Chapter): (r: Result<seq<byte>>)
    ensures r.Ok? <==> ChapterFits(c)
    ensures r.Ok? ==> r.value == ChapterImage(c)
    ensures r.Err? ==> r.error == FieldOverflow
  {
    Pow256Values();
    var startPage :- Pack(c.startPage, 2);
    var endPage :- Pack(c.endPage, 2);
    Ok(Field(c.name, 80) + startPage + endPage + Zeros(12))
  }

  /** One index entry, packed. */
  function EntryBytes(offset: int, size: int, width: int, height: int): (r: Result<seq<byte>>)
    ensures r.Ok? <==> U64(offset) && U32(size) && U16(width) && U16(height)
    ensures r.Ok? ==> r.value == EntryImage(IndexEntry(offset, size, width, height))
    ensures r.Err? ==> r.error == FieldOverflow
  {
    Pow256Values();
    var o :- Pack(offset, 8);
    var s :- Pack(size, 4);
    var w :- Pack(width, 2);
    var h :- Pack(height, 2);
    Ok(o + s + w + h)
  }
}
