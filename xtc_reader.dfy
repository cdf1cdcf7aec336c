/** `XTCReader`: parses a container back into its frame byte strings,
    recording page count, reading direction, metadata, chapters and the first
    page's dimensions in its own fields as it goes. A field assigned before a
    failing read keeps its new value. */
module XtcRead {
  import opened Results
  import opened Bytes
  import opened XtcLayout

  /** The reader's fields. */
  datatype ReaderState = ReaderState(
    metadata: Option<Metadata>,
    chapters: seq<Chapter>,
    width: int,
    height: int,
    pageCount: int,
    readingDirection: int)

  /** The fields of a freshly constructed reader. */
  const INITIAL: ReaderState := ReaderState(None, [], 0, 0, 0, 0)

  /** A text field: the bytes before the first NUL of the (clipped) slice
      `data[off:off+size]`. */
  function TextAt(data: seq<byte>, off: nat, size: nat): (r: seq<byte>)
    ensures |r| <= size
    ensures forall i :: 0 <= i < |r| ==> r[i] != 0
  {
    var s := Slice(data, off, off + size);
    assert |s| <= size;
    CutAtNul(s)
  }

  /** `_read_metadata(data, off)`: the text fields never fail (slices are
      clipped); the three integer fields need `off + 248` bytes. */
  function ReadMetadata(data: seq<byte>, off: nat): (r: Result<Metadata>)
    ensures r.Ok? <==> off + 248 <= |data|
  {
    var createTime :- Unpack(data, off + 240, 4);
    var coverPage :- Unpack(data, off + 244, 2);
    var chapterCount :- Unpack(data, off + 246, 2);
    Ok(Metadata(TextAt(data, off, 128), TextAt(data, off + 128, 64), TextAt(data, off + 192, 32),
                TextAt(data, off + 224, 16), createTime, coverPage, chapterCount))
  }

  /** Chapter record `j` of a table at `off` can be read: both its page
      fields are inside `data`. */
  predicate ChapterReadable(data: seq<byte>, off: nat, j: nat) {
    off + CHAPTER_SIZE * j + 84 <= |data|
  }

  /** Parse one chapter record at `off`. */
  function ChapterOf(data: seq<byte>, off: nat): (c: Chapter)
    requires off + 84 <= |data|
  {
    Chapter(TextAt(data, off, 80), FromLe(data[off + 80..off + 82]), FromLe(data[off + 82..off + 84]))
  }

  /** How many of `count` records the `_read_chapters` loop appends before
      the first one it cannot read. */
  function ChaptersRead(data: seq<byte>, off: nat, count: nat): (n: nat)
    ensures n <= count
    ensures forall j :: 0 <= j < n ==> ChapterReadable(data, off, j)
    ensures n < count ==> !ChapterReadable(data, off, n)
  {
    if count == 0 then 0
    else if ChapterReadable(data, off, count - 1) then count
    else ChaptersRead(data, off, count - 1)
  }

  /** The first `n` chapter records of a table at `off`. */
  function ChaptersAt(data: seq<byte>, off: nat, n: nat): (cs: seq<Chapter>)
    requires forall j :: 0 <= j < n ==> ChapterReadable(data, off, j)
    ensures |cs| == n
  {
    seq(n, j requires 0 <= j < n && ChapterReadable(data, off, j) => ChapterOf(data, off + CHAPTER_SIZE * j))
  }

  /** Parse one index entry at `off`. */
  function EntryOf(data: seq<byte>, off: nat): (e: IndexEntry)
    requires off + INDEX_ENTRY_SIZE <= |data|
  {
    IndexEntry(FromLe(data[off..off + 8]), FromLe(data[off + 8..off + 12]),
               FromLe(data[off + 12..off + 14]), FromLe(data[off + 14..off + 16]))
  }

  /** The four unpacks of one index entry at `off`. */
  function ReadEntry(data: seq<byte>, off: nat): (r: Result<IndexEntry>)
    ensures r.Ok? <==> off + INDEX_ENTRY_SIZE <= |data|
    ensures r.Ok? ==> r.value == EntryOf(data, off)
    ensures r.Err? ==> r.error == Truncated
  {
    var pageOffset :- Unpack(data, off, 8);
    var pageSize :- Unpack(data, off + 8, 4);
    var pageWidth :- Unpack(data, off + 12, 2);
    var pageHeight :- Unpack(data, off + 14, 2);
    Ok(IndexEntry(pageOffset, pageSize, pageWidth, pageHeight))
  }

  /** The bytes an index entry points at, clipped to the data. */
  function FrameOf(data: seq<byte>, e: IndexEntry): seq<byte> {
    Slice(data, e.offset, e.offset + e.size)
  }

  /** Every one of `n` index entries at `off` can be read. */
  predicate IndexReadable(data: seq<byte>, off: nat, n: nat) {
    n == 0 || off + INDEX_ENTRY_SIZE * n <= |data|
  }

  /** The frames of an index table of `n` entries at `off`. */
  function FramesAt(data: seq<byte>, off: nat, n: nat): (fs: seq<seq<byte>>)
    requires IndexReadable(data, off, n)
    ensures |fs| == n
  {
    seq(n, i requires 0 <= i < n && IndexReadable(data, off, n) =>
      FrameOf(data, EntryOf(data, off + INDEX_ENTRY_SIZE * i)))
  }

  /** Which number `decode` takes as the count of chapter records. As
      written it is the header's has-chapters byte (`FlagByte`), which the
      writer sets to 1; `BlockCount` is the count the metadata block holds,
      the number of chapters written. */
  datatype CountRule = FlagByte | BlockCount

  /** What `decode(data)` does to the reader's fields and what it returns:
      the header fields are read in order, and the page count and reading
      direction are stored as soon as they are read. */
  function DecodeSpec(st: ReaderState, data: seq<byte>, rule: CountRule): (ReaderState, Result<seq<seq<byte>>>) {
    if |data| < 4 then (st, Err(Truncated))
    else if FromLe(data[0..4]) != MAGIC then (st, Err(BadMagic))
    else if |data| < 8 then (st, Err(Truncated))
    else
      var st1 := st.(pageCount := FromLe(data[6..8]));
      if |data| < 9 then (st1, Err(Truncated))
      else
        var st2 := st1.(readingDirection := data[8] as int);
        if |data| < HEADER_SIZE then (st2, Err(Truncated))
        else BodySpec(st2, data, rule)
  }

  /** The number of chapter records read: the has-chapters byte, or under
      `BlockCount` the metadata block's count when chapters are flagged and
      a block was read. */
  function ChapterCount(hasChapters: nat, block: Option<Metadata>, rule: CountRule): (n: nat)
    ensures hasChapters == 0 ==> n == 0
    ensures rule.FlagByte? || block.None? ==> n == hasChapters
  {
    if rule.BlockCount? && hasChapters != 0 && block.Some? && block.value.chapterCount >= 0
    then block.value.chapterCount
    else hasChapters
  }

  /** Everything after the header: metadata (when flagged and at a non-zero
      offset), then the chapter and index tables. */
  function BodySpec(st: ReaderState, data: seq<byte>, rule: CountRule): (ReaderState, Result<seq<seq<byte>>>)
    requires |data| >= HEADER_SIZE && st.pageCount >= 0
  {
    var hasMetadata := data[9] as nat;
    var hasChapters := data[11] as nat;
    var metadataOffset := FromLe(data[16..24]);
    var indexOffset := FromLe(data[24..32]);
    var readsMetadata := hasMetadata != 0 && metadataOffset > 0;
    var chapterOffset := if hasMetadata != 0 then metadataOffset + METADATA_SIZE else HEADER_SIZE;
    if !readsMetadata then TablesSpec(st, data, chapterOffset, ChapterCount(hasChapters, None, rule), indexOffset)
    else match ReadMetadata(data, metadataOffset)
      case Err(e) => (st, Err(e))
      case Ok(m) => TablesSpec(st.(metadata := Some(m)), data, chapterOffset, ChapterCount(hasChapters, Some(m), rule), indexOffset)
  }

  /** The chapter table (the header's has-chapters byte is the record count),
      then the index table. */
  function TablesSpec(st: ReaderState, data: seq<byte>, chapterOffset: nat, chapterCount: nat, indexOffset: nat)
    : (ReaderState, Result<seq<seq<byte>>>)
    requires st.pageCount >= 0
  {
    var n := ChaptersRead(data, chapterOffset, chapterCount);
    var st1 := st.(chapters := st.chapters + ChaptersAt(data, chapterOffset, n));
    if n < chapterCount then (st1, Err(Truncated))
    else IndexSpec(st1, data, indexOffset)
  }

  /** One frame per index entry; the first entry's dimensions are stored. */
  function IndexSpec(st: ReaderState, data: seq<byte>, indexOffset: nat): (ReaderState, Result<seq<seq<byte>>>)
    requires st.pageCount >= 0
  {
    var st1 :=
      if st.pageCount > 0 && indexOffset + INDEX_ENTRY_SIZE <= |data| then
        var e := EntryOf(data, indexOffset);
        st.(width := e.width, height := e.height)
      else st;
    if IndexReadable(data, indexOffset, st.pageCount) then (st1, Ok(FramesAt(data, indexOffset, st.pageCount)))
    else (st1, Err(Truncated))
  }

  class XtcReader {
    var metadata: Option<Metadata>
    var chapters: seq<Chapter>
    var width: int
    var height: int
    var pageCount: int
    var readingDirection: int

    function State(): ReaderState
      reads this
    {
      ReaderState(metadata, chapters, width, height, pageCount, readingDirection)
    }

    constructor()
      ensures State() == INITIAL
    {
      metadata := None;
      chapters := [];
      width := 0;
      height := 0;
      pageCount := 0;
      readingDirection := 0;
    }

    /** `decode(data)`: header, then the optional metadata and chapters, then
        one frame per index entry. */
    method Decode(data: seq<byte>) returns (r: Result<seq<seq<byte>>>)
      modifies this
      ensures (State(), r) == DecodeSpec(old(State()), data, FlagByte)
    {
      var magic :- Unpack(data, 0, 4);
      if magic != MAGIC {
        return Err(BadMagic);
      }
      var version :- Unpack(data, 4, 2);
      var count :- Unpack(data, 6, 2);
      pageCount := count;
      var direction :- Unpack(data, 8, 1);
      readingDirection := direction;
      assert data[8..9] == [data[8]];
      if |data| < HEADER_SIZE {
        return Err(Truncated);
      }
      r := ReadBody(data);
    }

    /** The rest of `decode` once the whole header is present (so reading
        its remaining fields cannot fail): the metadata block, then the
        tables. */
    method ReadBody(data: seq<byte>) returns (r: Result<seq<seq<byte>>>)
      requires |data| >= HEADER_SIZE && pageCount >= 0
      modifies this
      ensures (State(), r) == BodySpec(old(State()), data, FlagByte)
    {
      var hasMetadata := data[9] as nat;
      var hasChapters := data[11] as nat;
      var metadataOffset := FromLe(data[16..24]);
      var indexOffset := FromLe(data[24..32]);
      if hasMetadata != 0 && metadataOffset > 0 {
        var m :- ReadMetadata(data, metadataOffset);
        metadata := Some(m);
      }
      var chapterOffset := if hasMetadata != 0 then metadataOffset + METADATA_SIZE else HEADER_SIZE;
      r := ReadTables(data, chapterOffset, hasChapters, indexOffset);
    }

    method ReadTables(data: seq<byte>, chapterOffset: nat, chapterCount: nat, indexOffset: nat)
      returns (r: Result<seq<seq<byte>>>)
      requires pageCount >= 0
      modifies this
      ensures (State(), r) == TablesSpec(old(State()), data, chapterOffset, chapterCount, indexOffset)
    {
      if chapterCount != 0 {
        var complete := ReadChapters(data, chapterOffset, chapterCount);
        if !complete {
          return Err(Truncated);
        }
      } else {
        assert chapters + ChaptersAt(data, chapterOffset, 0) == chapters;
      }
      r := ReadIndex(data, indexOffset);
    }

    /** `_read_chapters(data, off, count)`: appends records until one cannot
        be read; answers whether all `count` were read. */
    method ReadChapters(data: seq<byte>, off: nat, count: nat) returns (complete: bool)
      modifies this
      ensures chapters == old(chapters) + ChaptersAt(data, off, ChaptersRead(data, off, count))
      ensures complete <==> ChaptersRead(data, off, count) == count
      ensures metadata == old(metadata) && width == old(width) && height == old(height)
      ensures pageCount == old(pageCount) && readingDirection == old(readingDirection)
    {
      var i := 0;
      while i < count
        invariant 0 <= i <= count
        invariant forall j :: 0 <= j < i ==> ChapterReadable(data, off, j)
        invariant chapters == old(chapters) + ChaptersAt(data, off, i)
        invariant metadata == old(metadata) && width == old(width) && height == old(height)
        invariant pageCount == old(pageCount) && readingDirection == old(readingDirection)
      {
        var at := off + CHAPTER_SIZE * i;
        var startPage := Unpack(data, at + 80, 2);
        var endPage := Unpack(data, at + 82, 2);
        if startPage.Err? || endPage.Err? {
          ChaptersReadIs(data, off, count, i);
          return false;
        }
        var c := Chapter(TextAt(data, at, 80), startPage.value, endPage.value);
        assert ChaptersAt(data, off, i + 1) == ChaptersAt(data, off, i) + [c];
        chapters := chapters + [c];
        i := i + 1;
      }
      ChaptersReadIs(data, off, count, count);
      return true;
    }

    /** The index loop of `decode`: the first entry also sets the width and
        height. */
    method ReadIndex(data: seq<byte>, off: nat) returns (r: Result<seq<seq<byte>>>)
      requires pageCount >= 0
      modifies this
      ensures IndexReadable(data, off, old(pageCount)) ==> r == Ok(FramesAt(data, off, old(pageCount)))
      ensures !IndexReadable(data, off, old(pageCount)) ==> r == Err(Truncated)
      ensures old(pageCount) > 0 && off + INDEX_ENTRY_SIZE <= |data| ==>
                width == EntryOf(data, off).width && height == EntryOf(data, off).height
      ensures !(old(pageCount) > 0 && off + INDEX_ENTRY_SIZE <= |data|) ==>
                width == old(width) && height == old(height)
      ensures metadata == old(metadata) && chapters == old(chapters)
      ensures pageCount == old(pageCount) && readingDirection == old(readingDirection)
    {
      var n := pageCount;
      var frames: seq<seq<byte>> := [];
      var i := 0;
      while i < n
        invariant 0 <= i <= n
        invariant IndexReadable(data, off, i)
        invariant frames == FramesAt(data, off, i)
        invariant i > 0 ==> width == EntryOf(data, off).width && height == EntryOf(data, off).height
        invariant i == 0 ==> width == old(width) && height == old(height)
        invariant metadata == old(metadata) && chapters == old(chapters)
        invariant pageCount == n && readingDirection == old(readingDirection)
      {
        var entry :- ReadEntry(data, off + INDEX_ENTRY_SIZE * i);
        if i == 0 {
          width := entry.width;
          height := entry.height;
        }
        FramesAtSnoc(data, off, i);
        frames := frames + [Slice(data, entry.offset, entry.offset + entry.size)];
        i := i + 1;
      }
      return Ok(frames);
    }
  }

  lemma FramesAtSnoc(data: seq<byte>, off: nat, i: nat)
    requires off + INDEX_ENTRY_SIZE * (i + 1) <= |data|
    ensures FramesAt(data, off, i + 1)
         == FramesAt(data, off, i) + [FrameOf(data, EntryOf(data, off + INDEX_ENTRY_SIZE * i))]
  {
  }

  /** Once records `0..i-1` are readable and record `i` is not (or `i` is
      the count), exactly `i` records are read. */
  lemma {:induction false} ChaptersReadIs(data: seq<byte>, off: nat, count: nat, i: nat)
    requires i <= count
    requires forall j :: 0 <= j < i ==> ChapterReadable(data, off, j)
    requires i < count ==> !ChapterReadable(data, off, i)
    ensures ChaptersRead(data, off, count) == i
  {
    if count > 0 && !ChapterReadable(data, off, count - 1) {
      ChaptersReadIs(data, off, count - 1, i);
    }
  }
}
