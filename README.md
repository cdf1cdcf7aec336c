# xtctool core, modelled in Dafny

xtctool converts documents (PDF pages, PNG/JPEG pictures, `.xtc` containers
and single `.xth`/`.xtg` frames) into frames for Xteink e-readers. It then
writes the frames either as one `.xtc` container or as numbered page files.
This project models the core of that pipeline and proves properties of the
model:

- **Frame codecs.** The XTH format stores four grey levels in two bit planes,
  scanned column by column from right to left. The XTG format stores a 1-bit
  bitmap row by row. Both share a 22-byte header. The model covers the
  non-dithering quantisers, the packing loops and the decoders. Each format
  has a proved round trip: decoding an encoded grid gives back every pixel,
  scaled to 0..255.
- **The XTC container.** The model covers the writer's header, metadata
  block, chapter table, index table and data area, and the reader's `decode`,
  which updates its own fields as it goes. Writing and then decoding is
  proved to return the frames, the page count, the reading direction and the
  page dimensions. It also returns the metadata block, with text truncated to
  the field width and cut at the first NUL. Chapters behave as a Finding
  below describes.
- **Assets.** An asset is an object with a metadata dictionary (`Assets.Asset`,
  a class). The generic `convert` wrapper is meant to propagate the source's
  metadata onto every new result. As written it cannot do so for a new
  frame, which has no metadata dictionary, and raises instead (see
  Findings). The pipeline model uses the corrected frame constructor, which
  starts a frame with empty metadata, and records the as-written behaviour
  separately. The model covers the `_convert_impl` of the PDF, container
  and frame classes. Opening pictures, image encoding and PDF rendering come
  from outside the model (`Assets.Env`).
- **Page selection.** `parse_page_spec` splits a `file:spec` argument.
  `parse_page_range` expands `1-4,7,10-` against a page count: it keeps each
  in-range page once, in the order the spec first lists it.
- **The `convert` command.** The model covers:
  - choosing the asset for each source;
  - choosing the output mode;
  - the stack-based worklist, which is proved to produce the depth-first,
    left-to-right frames of the sources, in source order;
  - `write_xtc`, whose output reads back as the frames;
  - `write_single_pages`, whose files get distinct names.

Little-endian fields follow Python's `struct` (`<B`, `<H`, `<I`, `<Q`). An
out-of-range value is an error (`FieldOverflow`), and so is a short read
(`Truncated`). Python exceptions become the `Err` values of
`Results.Result`.

## Model

| member | source | states |
|---|---|---|
| Bytes.Pack | xtctool/core/xtc.py:99-110 | `struct.pack` of a k-byte unsigned field succeeds exactly for values in range, and then gives k bytes that read back as the value; otherwise FieldOverflow |
| Bytes.Unpack | xtctool/core/xtc.py:272-286 | `struct.unpack` succeeds exactly when the k bytes are present, and then gives their little-endian value; otherwise Truncated |
| Bytes.LeRoundTrip | xtctool/core/xtc.py:301-304 | reading back a little-endian field gives the value written |
| Bytes.Slice | xtctool/core/xtc.py:312 | a Python slice never fails: inside the data it is the exact sub-sequence, past the end it stops at the end, and it is empty when it starts at or past the end or its bounds are reversed |
| Bytes.Field | xtctool/core/xtc.py:119-132 | a text field is the text truncated to width−1 bytes, padded with NULs to exactly the width |
| Bytes.CutAtNul | xtctool/core/xtc.py:325-338 | `split(b'\x00', 1)[0]` is the longest NUL-free prefix, stopping at the first NUL |
| Bytes.CutAtNulOfField | xtctool/core/xtc.py:119-132 | a padded field, cut at its first NUL, gives the stored truncated text cut at its first NUL |
| Bytes.ByteSum | xtctool/core/xth.py:159 | `sum(bytes)` is at most 255 per byte |
| Bytes.Concat | xtctool/core/xtc.py:226-228 | the data area is the frames back to back: its length is the total of theirs |
| Text.Lower | xtctool/cli/convert.py:75 | `lower()` keeps the length and lower-cases each ASCII capital |
| Text.RFind | xtctool/utils/pages.py:32 | the last occurrence of a character, or −1 when there is none |
| Text.Find | xtctool/utils/pages.py:84 | the first occurrence of a character, or −1 when there is none |
| Text.Strip | xtctool/utils/pages.py:74 | the slice without leading or trailing white space of the given set: `str.strip()`'s set (C `isspace` plus U+001C..U+001F) for page tokens, C `isspace` inside `int()` |
| Text.SeparatorStripped | xtctool/utils/pages.py:74 | `str.strip()` removes a trailing U+001C..U+001F after a token, which the stripping inside `int()` keeps |
| Text.Split | xtctool/utils/pages.py:73 | `split(sep)` gives at least one piece, and no piece holds the separator |
| Text.SplitJoin | xtctool/utils/pages.py:73 | joining the pieces of `split` with the separator gives the string back |
| Paths.Name | xtctool/cli/convert.py:74-75 | `Path.name` is the text after the last `/` and holds no `/` |
| Paths.Suffix | xtctool/cli/convert.py:75 | `Path.suffix` is empty, or a dot then at least one character, with no other dot and no `/` |
| Paths.Stem | xtctool/cli/convert.py:249 | stem followed by suffix is the name |
| Paths.Sibling | xtctool/cli/convert.py:251-261 | `parent / f` is the directory part of the path followed by `f` |
| Paths.SplitExt | xtctool/assets/xtframe.py:54 | `os.path.splitext` gives an empty extension, or one that starts with a dot and holds no other dot and no `/` |
| Paths.SuffixIsSplitExt | xtctool/assets/xtframe.py:54 | `Path.suffix` and `os.path.splitext` agree for a name that neither starts nor ends with a dot |
| FrameFormat.Checksum | xtctool/core/xth.py:159-169 | the stored checksum is the byte sum reduced to 64 bits |
| FrameFormat.FrameHeader | xtctool/core/xth.py:163-169 | the frame header is 22 bytes |
| FrameFormat.FrameBytes | xtctool/core/xth.py:156-171 | `encode` succeeds exactly when width, height and the payload size fit their fields; it then gives header then payload, with size and checksum; otherwise FieldOverflow |
| FrameFormat.ParseHeader | xtctool/core/xth.py:214-220 | `decode` accepts data exactly when it has 8 bytes and the expected magic; a wrong magic is BadMagic, missing bytes Truncated; width and height are bytes 4..8 |
| FrameFormat.Payload | xtctool/core/xth.py:223 | the payload is `data[22:]`: everything after the 22-byte header, and empty for shorter data |
| FrameFormat.ParseFrame | xtctool/core/xth.py:214-223 | a written header parses back to its width and height, and the payload after it is returned intact |
| FrameFormat.ShiftIsMask | xtctool/core/xth.py:119-120 | `bit << (7 - i)` sets exactly pixel i's bit, MSB first |
| FrameFormat.BitAtShift | xtctool/core/xth.py:241-242 | `(byte >> (7 - i)) & 1` reads pixel i, MSB first |
| FrameFormat.PackStep | xtctool/core/xtg.py:94-99 | or-ing a pixel's placed bit into the byte advances the packing by one pixel |
| FrameFormat.PackMsbBits | xtctool/core/xtg.py:94-99 | bit i of a byte packed from n pixels is pixel i when i < n, and clear otherwise |
| FrameFormat.PackMsbBit | xtctool/core/xtg.py:210-213 | unpacking bit i of a packed byte gives pixel i back |
| Xth.QuantizeAscending | xtctool/core/xth.py:66-74 | with ascending thresholds, levels 0..3 are the intervals below t1, [t1, t2), [t2, t3) and from t3 |
| Xth.QuantizeMonotone | xtctool/core/xth.py:66-74 | a lighter pixel never gets a darker level |
| Xth.QuantizeGrid | xtctool/core/xth.py:55-74 | the level grid has the image's shape, and each level quantises the (optionally inverted) pixel |
| Xth.RemapInverse | xtctool/core/xth.py:95-99 | the stored value is `3 - lut[level]`; applying it twice is the identity, and decode's reverse LUT undoes it |
| Xth.Mapped | xtctool/core/xth.py:95-99 | the mapped grid keeps the shape and remaps each level |
| Xth.Column | xtctool/core/xth.py:107-123 | one column of a plane has ceil(height/8) bytes |
| Xth.Columns | xtctool/core/xth.py:105 | a plane has width columns, stored right to left |
| Xth.PlaneAt | xtctool/core/xth.py:105-123 | a plane has width·ceil(height/8) bytes; the byte for column x and band j sits at `(width-1-x)·bands + j` and packs that band |
| Xth.EncodeBitplanes | xtctool/core/xth.py:78-125 | `_encode_bitplanes` returns the high-bit plane and the low-bit plane of the remapped grid |
| Xth.PackColumn | xtctool/core/xth.py:107-123 | the band loop produces the column's bytes in both planes |
| Xth.PackBand | xtctool/core/xth.py:108-120 | the eight-pixel loop produces the band's byte in both planes; rows past the height stay 0 |
| Xth.PayloadFits | xtctool/core/xth.py:156 | for 16-bit dimensions, both planes fit the 32-bit size field |
| Xth.Encode | xtctool/core/xth.py:127-173 | `encode` without dithering gives header, plane 1, plane 2 of the quantised grid; it fails exactly when a dimension exceeds 16 bits |
| Xth.FrameOfPlanes | xtctool/core/xth.py:156-171 | the size field is the sum of the plane lengths, and the checksum is the sum of both planes |
| Xth.DecodedPixels | xtctool/core/xth.py:229-248 | decode's picture is height rows of width pixels |
| Xth.DecodeSpec | xtctool/core/xth.py:205-252 | `decode` succeeds exactly when the header parses; the payload is split into halves, and each pixel is two plane bits through the reverse LUT, times 85; a missing byte counts as 0 |
| Xth.Decode | xtctool/core/xth.py:205-252 | `decode` followed step by step computes DecodeSpec |
| Xth.DecodePlanes | xtctool/core/xth.py:229-250 | the column, band and bit loops fill the zeroed buffer with DecodedPixels |
| Xth.DecodeBand | xtctool/core/xth.py:239-248 | the bit loop sets the band's pixels of one column and no others |
| Xth.PlaneBits | xtctool/core/xth.py:115-116 | the high and low plane bits rebuild the stored value |
| Xth.PixelRoundTrip | xtctool/core/xth.py:233-248 | decoding one pixel of the encoded planes gives its level times 85 |
| Xth.EncodeThenDecode | xtctool/core/xth.py:127-252 | decoding what `encode` wrote gives the width, the height and every level times 85 |
| Xtg.MonochromeIsThreshold | xtctool/core/xtg.py:61-67 | a pixel is 1 exactly when it reaches the threshold, reversed when inverting |
| Xtg.MonochromeGrid | xtctool/core/xtg.py:61-67 | the bit grid has the image's shape, and each bit thresholds its pixel |
| Xtg.Row | xtctool/core/xtg.py:86-101 | a row has `(width + 7) // 8` bytes |
| Xtg.BitmapAt | xtctool/core/xtg.py:85-103 | the bitmap has ceil(width/8)·height bytes; byte b of row y sits at `y·bytes_per_row + b` and packs pixels 8b..8b+7, MSB first |
| Xtg.EncodeBitmap | xtctool/core/xtg.py:71-103 | `_encode_bitmap` returns the row-major bitmap |
| Xtg.PackByte | xtctool/core/xtg.py:92-101 | the bit loop packs eight pixels, leaving columns past the width 0 |
| Xtg.BitmapFits | xtctool/core/xtg.py:134 | for 16-bit dimensions, the bitmap fits the 32-bit size field |
| Xtg.Encode | xtctool/core/xtg.py:105-150 | `encode` without dithering gives header then bitmap of the thresholded grid; it fails exactly when a dimension exceeds 16 bits |
| Xtg.DecodeSpec | xtctool/core/xtg.py:182-216 | `decode` succeeds exactly when the header parses; each pixel is its bit times 255, and a byte missing from the payload leaves 0 |
| Xtg.Decode | xtctool/core/xtg.py:182-216 | `decode` followed step by step computes DecodeSpec |
| Xtg.DecodeBitmap | xtctool/core/xtg.py:201-214 | the row, byte and bit loops fill the zeroed buffer with DecodedPixels |
| Xtg.MissingByte | xtctool/core/xtg.py:207-208 | a byte past the payload's end leaves its eight pixels 0 |
| Xtg.DecodeByte | xtctool/core/xtg.py:209-214 | the bit loop sets the byte's pixels of one row and no others |
| Xtg.PixelRoundTrip | xtctool/core/xtg.py:205-214 | decoding one pixel of the encoded bitmap gives its bit times 255 |
| Xtg.EncodeThenDecode | xtctool/core/xtg.py:105-216 | decoding what `encode` wrote gives the width, the height and every bit times 255 |
| XtcLayout.DefaultMetadata | xtctool/core/xtc.py:10-19 | default metadata: empty texts, language `en-US`, no cover (0xFFFF), no chapters, the given create time |
| XtcLayout.HeaderImage | xtctool/core/xtc.py:99-110 | the header is 48 bytes |
| XtcLayout.MetadataImage | xtctool/core/xtc.py:112-144 | the metadata block is 256 bytes |
| XtcLayout.ChapterImage | xtctool/core/xtc.py:152-164 | a chapter record is 96 bytes |
| XtcLayout.ChaptersImage | xtctool/core/xtc.py:146-164 | the chapter table is 96 bytes per chapter |
| XtcLayout.EntryImage | xtctool/core/xtc.py:220-223 | an index entry is 16 bytes |
| XtcLayout.Entries | xtctool/core/xtc.py:216-224 | entry i points at the start offset plus the sizes of the frames before it, with that frame's size and the writer's width and height |
| XtcLayout.IndexImage | xtctool/core/xtc.py:216-224 | the index table is 16 bytes per frame |
| XtcLayout.IndexEntryAt | xtctool/core/xtc.py:216-224 | index entry i is bytes 16i..16i+16 of the table |
| XtcLayout.EntriesFitAt | xtctool/core/xtc.py:220-221 | when every entry fits its fields, so does entry i |
| XtcWrite.NewWriter | xtctool/core/xtc.py:45-75 | the constructor fails exactly when the lower-cased format is neither `xtg` nor `xth`; otherwise it keeps the given fields, with default metadata when none is given |
| XtcWrite.XtcWriter.Header | xtctool/core/xtc.py:77-110 | the header built from the writer's fields is 48 bytes |
| XtcWrite.XtcWriter.Prefix | xtctool/core/xtc.py:186-214 | header, metadata block and chapter table end exactly at the index offset |
| XtcWrite.XtcWriter.HeaderBytes | xtctool/core/xtc.py:77-110 | `_write_header` succeeds exactly when page count, direction and offsets fit their fields |
| XtcWrite.XtcWriter.MetadataBytes | xtctool/core/xtc.py:112-144 | `_write_metadata` succeeds exactly when create time, cover page and chapter count fit their fields |
| XtcWrite.XtcWriter.WriteChapters | xtctool/core/xtc.py:146-164 | the chapter loop succeeds exactly when every record's pages fit 16 bits, and then gives the records in list order |
| XtcWrite.XtcWriter.WriteIndex | xtctool/core/xtc.py:216-224 | the index loop succeeds exactly when every entry fits, and then gives one entry per frame with a running data offset |
| XtcWrite.XtcWriter.Write | xtctool/core/xtc.py:166-228 | `write`: an empty list fails; offsets follow from which sections are present; the image is header, metadata, chapters, index, data (its round trip is WriteThenDecode) |
| XtcWrite.XtcWriter.WritePrefix | xtctool/core/xtc.py:204-214 | header, metadata block when present, chapter table when present; fails exactly when one of their fields is out of range, and then ends at the index offset |
| XtcWrite.WriteFrames | xtctool/core/xtc.py:226-228 | the data loop writes the frames back to back, in order |
| XtcWrite.ChapterBytes | xtctool/core/xtc.py:152-164 | one chapter record packs exactly when its pages fit 16 bits |
| XtcWrite.EntryBytes | xtctool/core/xtc.py:220-223 | one index entry packs exactly when offset, size and dimensions fit their fields |
| XtcRead.TextAt | xtctool/core/xtc.py:325-338 | a text field read is at most its width and holds no NUL |
| XtcRead.ReadMetadata | xtctool/core/xtc.py:317-357 | `_read_metadata` fails exactly when fewer than 248 bytes follow the offset |
| XtcRead.ChaptersRead | xtctool/core/xtc.py:367-384 | the chapter loop reads records until the first one whose page fields are cut short |
| XtcRead.ReadEntry | xtctool/core/xtc.py:300-304 | one index entry reads exactly when its 16 bytes are present; otherwise Truncated |
| XtcRead.ChapterCount | xtctool/core/xtc.py:293-295 | the number of chapter records read: 0 without the chapter flag; as written the flag byte itself |
| XtcRead.XtcReader.constructor | xtctool/core/xtc.py:240-247 | a new reader has no metadata, no chapters and zero dimensions, page count and direction |
| XtcRead.XtcReader.Decode | xtctool/core/xtc.py:262-315 | `decode` updates the reader's fields and returns the frames as DecodeSpec says: magic check, header fields stored in order, metadata, chapters, index |
| XtcRead.XtcReader.ReadBody | xtctool/core/xtc.py:288-295 | metadata read only when flagged at a non-zero offset; the chapter table follows it, or the header |
| XtcRead.XtcReader.ReadTables | xtctool/core/xtc.py:292-315 | chapters, then the index |
| XtcRead.XtcReader.ReadChapters | xtctool/core/xtc.py:359-384 | the chapter loop appends the readable records and reports whether all were read; other fields unchanged |
| XtcRead.XtcReader.ReadIndex | xtctool/core/xtc.py:297-315 | one frame per entry, clipped to the data; the first entry's width and height are stored; an index cut short is Truncated |
| XtcRoundTrip.HeaderOfImage | xtctool/core/xtc.py:272-286 | each header field read from a written header is the value written |
| XtcRoundTrip.MetadataFields | xtctool/core/xtc.py:317-357 | each metadata field read from a written block is its stored value |
| XtcRoundTrip.MetadataOfImage | xtctool/core/xtc.py:112-144 | a written metadata block reads back as the metadata, with texts truncated and cut at NUL, and the chapter count written |
| XtcRoundTrip.ChapterOfImage | xtctool/core/xtc.py:152-164 | a written chapter record reads back with its name truncated and its start and end pages |
| XtcRoundTrip.EntryOfImage | xtctool/core/xtc.py:220-223 | a written index entry reads back as its four fields |
| XtcRoundTrip.FramesOfImage | xtctool/core/xtc.py:298-315 | the index of a written file points each entry at its own frame |
| XtcRoundTrip.IndexOfImage | xtctool/core/xtc.py:297-315 | the index step of decode on a written file returns the frames and the writer's dimensions |
| XtcRoundTrip.HeaderOfWritten | xtctool/core/xtc.py:186-201 | a written file's header holds the magic, the page count, the direction, both flags and the offsets laid out by `write` |
| XtcRoundTrip.WriteThenDecode | xtctool/core/xtc.py:166-315 | decoding what `write` produced returns exactly the frames, with page count, direction, metadata block, chapters and dimensions |
| XtcRoundTrip.FirstChapterRead | xtctool/core/xtc.py:293-295 | as written, the single record read from a written file is the first chapter |
| XtcRoundTrip.ChapterCountQuirk | xtctool/core/xtc.py:295 | as written, two or more chapters written come back as one, although the metadata block holds the true count |
| XtcRoundTrip.AllChaptersReadBack | xtctool/core/xtc.py:289-295 | reading the metadata block's count of records brings back every chapter written, in order, with its page range |
| XtcRoundTrip.StoredChapters | xtctool/core/xtc.py:152-161 | reference definition of the chapters a written table holds: name truncated to 79 bytes, pages unchanged; AllChaptersReadBack proves they are what the reader returns |
| Pages.ParsePageSpec | xtctool/utils/pages.py:6-37 | URLs are never split; otherwise the text after the last colon is split off when it is non-empty and holds a digit; the parts rejoin to the path |
| Pages.SpecRoundTrip | xtctool/utils/pages.py:30-35 | `file:spec` with a digit and no colon in spec splits back into file and spec |
| Pages.ParseInt | xtctool/utils/pages.py:78 | `int()` fails only with InvalidNumber |
| Pages.Decimal | xtctool/utils/pages.py:87-93 | `str(n)` is a non-empty run of digits |
| Pages.DecimalValue | xtctool/utils/pages.py:87-93 | the digits of `str(n)` have value n |
| Pages.ParseDecimal | xtctool/utils/pages.py:87-93 | `int(str(n)) == n` |
| Pages.Range | xtctool/utils/pages.py:79 | `range(a, b)`: b−a consecutive numbers from a, or none |
| Pages.Span | xtctool/utils/pages.py:82-89 | a range token fails only with InvalidNumber |
| Pages.Expand | xtctool/utils/pages.py:76-93 | a token fails only with InvalidNumber |
| Pages.ExpandLeading | xtctool/utils/pages.py:77-79 | `-N` gives pages 1..N |
| Pages.ExpandInterval | xtctool/utils/pages.py:82-89 | `A-B` gives pages A..B |
| Pages.ExpandOpen | xtctool/utils/pages.py:88 | `A-` gives pages A to the page count |
| Pages.ExpandSingle | xtctool/utils/pages.py:92-93 | `N` gives page N |
| Pages.ExpandDash | xtctool/utils/pages.py:82-85 | a token whose left side is digits splits at the dash after them |
| Pages.Tokens | xtctool/utils/pages.py:73-74 | each comma piece is stripped with `str.strip()`'s white space and expanded |
| Pages.SeparatorAroundPage | xtctool/utils/pages.py:73-103 | a page number followed by one of U+001C..U+001F selects that page, for example `parse_page_range("2\x1c", 5) == [2]` |
| Pages.GatherFails | xtctool/utils/pages.py:73-93 | the pages are gathered unless some token fails, and then the error is the first failing token's |
| Pages.ExpandParts | xtctool/utils/pages.py:73-93 | the token loop computes ExpandAll: all pages in token order, or the first failure |
| Pages.KeepFirstInRange | xtctool/utils/pages.py:96-101 | the filter loop with its `seen` set computes Select |
| Pages.ParsePageRange | xtctool/utils/pages.py:40-103 | `parse_page_range` computes PageRange |
| Pages.SelectIsFirstOccurrences | xtctool/utils/pages.py:96-103 | the result holds exactly the listed pages within 1..total, each once, ordered by first occurrence |
| Pages.PageRangeMeaning | xtctool/utils/pages.py:40-103 | `parse_page_range` returns exactly the listed in-range pages, once each, in order of first listing |
| Pages.PageRangeBounds | xtctool/utils/pages.py:99 | every page returned is within 1..total, and none repeats |
| Assets.PageSpec | xtctool/assets/pdf.py:47-49 | a non-empty string `page_spec` selects pages; a missing or falsy value selects none; another truthy value fails |
| Assets.Update | xtctool/assets/base.py:61 | `dict.update`: the source's entries win and the target's other entries stay |
| Assets.UpdateIdempotent | xtctool/assets/base.py:55-61 | propagating the same metadata twice is propagating it once |
| Assets.ChainedPropagation | xtctool/assets/base.py:87-96 | metadata propagated along a chain reaches the end, nearer sources losing to farther ones |
| Assets.Asset.constructor | xtctool/assets/base.py:20-22 | a new asset has empty metadata |
| Assets.Asset.SetMetadata | xtctool/assets/base.py:34-41 | the key maps to the value; other keys unchanged |
| Assets.Asset.GetMetadata | xtctool/assets/base.py:43-53 | the stored value, or the default when the key is absent |
| Assets.Asset.PropagateMetadata | xtctool/assets/base.py:55-61 | the target's metadata is updated with the source's; the source is unchanged, even when it is the target |
| Assets.Views | xtctool/assets/base.py:93-96 | reference definition: the value view of each asset, in list order; the methods that build assets are proved against it |
| Assets.PropagateResult | xtctool/assets/base.py:89-96 | every asset in a new result gets the source's metadata; the source is unchanged |
| FrameAssets.FrameFileFormat | xtctool/assets/xtframe.py:53-55 | a frame file's format is `xtg` exactly when its lower-cased extension is `.xtg`, else `xth` |
| FrameAssets.NewFrameFile | xtctool/assets/xtframe.py:51-55 | a frame file keeps its path and has format `xth` or `xtg` |
| FrameAssets.FrameStep | xtctool/assets/xtframe.py:43-45 | reference definition: a frame converts to itself; Dispatch.Step and Cli.PopSame prove that this ends the worklist's work on it |
| FrameAssets.FrameFileStep | xtctool/assets/xtframe.py:57-60 | reference definition: a frame file becomes a frame of the file's bytes in its format, with no propagation; Dispatch.ConvertFrameFile is proved against it |
| FrameAssets.NewFrameAsWritten | xtctool/assets/xtframe.py:16-25 | as written, the frame constructor sets data and format but no metadata |
| FrameAssets.PropagateAsWritten | xtctool/assets/base.py:55-61 | propagating into an asset without metadata raises AttributeError |
| FrameAssets.FrameWithoutMetadata | xtctool/assets/xtframe.py:16-25 | as written, propagation into a new frame always fails |
| FrameAssets.FrameWithMetadata | xtctool/assets/base.py:20-22 | a frame with the base constructor's empty metadata takes the source's metadata unchanged |
| ContainerAsset.FramesFormat | xtctool/assets/xtcontainer.py:30-40 | the format is `xth` or `xtg` by the first frame's magic; no frames, or any other magic, fails |
| ContainerAsset.Pick | xtctool/assets/xtcontainer.py:47 | reference definition of `[frames[i-1] for i in pages]`; SelectionPicksFrames proves what a spec then picks |
| ContainerAsset.Selected | xtctool/assets/xtcontainer.py:42-50 | without a spec every frame is kept; with one, the spec's pages are kept, failing exactly when the spec fails |
| ContainerAsset.ContainerSpec | xtctool/assets/xtcontainer.py:16-58 | the container's results are frames with empty metadata |
| ContainerAsset.FrameNodes | xtctool/assets/xtcontainer.py:52-58 | reference definition: one frame per kept frame, in the detected format; ContainerAsset.FrameAssets is proved against it and Dispatch.ContainerFramesCarryMetadata states its metadata |
| ContainerAsset.ContainerImpl | xtctool/assets/xtcontainer.py:16-58 | `_convert_impl` computes ContainerSpec with fresh frame assets |
| ContainerAsset.SelectFrames | xtctool/assets/xtcontainer.py:42-50 | the selection step computes Selected |
| ContainerAsset.FrameAssets | xtctool/assets/xtcontainer.py:53-58 | the asset loop makes one fresh frame asset per frame |
| ContainerAsset.SelectionPicksFrames | xtctool/assets/xtcontainer.py:43-47 | a spec picks stored frames by 1-based number, each at most once, and never more than are stored |
| ContainerAsset.DistinctInRange | xtctool/assets/xtcontainer.py:47 | distinct page numbers within 1..n are at most n |
| ContainerAsset.NoSpecKeepsAll | xtctool/assets/xtcontainer.py:49-58 | without a spec every decoded frame comes out, in order, in the first frame's format |
| PdfAsset.Runs | xtctool/assets/pdf.py:43 | `groupby` cuts the TOC into maximal non-empty same-page runs that concatenate back to it |
| PdfAsset.GroupByPage | xtctool/assets/pdf.py:43-44 | the grouping loop stores each run under its page, later runs replacing earlier ones |
| PdfAsset.GroupedMeaning | xtctool/assets/pdf.py:43-44 | a page has a group exactly when some run is on it, and it is the last such run |
| PdfAsset.TocGroups | xtctool/assets/pdf.py:37-44 | a page has a group exactly when some entry is on it; a group is non-empty and all on its page |
| PdfAsset.LastGroup | xtctool/assets/pdf.py:43-44 | a page's group is the last maximal run of its entries in the TOC |
| PdfAsset.SelectedPages | xtctool/assets/pdf.py:46-53 | the spec's pages, or 1..page_count without one; a bad spec fails |
| PdfAsset.PageMeta | xtctool/assets/pdf.py:66-69 | a page asset has `toc` exactly when its page has a non-empty group, and otherwise empty metadata |
| PdfAsset.PageNodes | xtctool/assets/pdf.py:55-71 | reference definition: one rendered page image per selected page, in order; PdfPagesInRange and PdfTocAttached state which pages and which TOC |
| PdfAsset.PdfImpl | xtctool/assets/pdf.py:17-73 | `_convert_impl` computes PdfSpec with fresh image assets |
| PdfAsset.PageAssets | xtctool/assets/pdf.py:55-73 | the render loop makes one fresh image asset per page with its TOC |
| PdfAsset.PdfPagesInRange | xtctool/assets/pdf.py:46-63 | every page rendered is within 1..page_count and none twice |
| PdfAsset.PdfAllPages | xtctool/assets/pdf.py:51-52 | without a spec every page is rendered once, in order |
| PdfAsset.PdfTocAttached | xtctool/assets/pdf.py:37-69 | a page gets `toc` exactly when extraction is on and the TOC has an entry on that page |
| Dispatch.Propagated | xtctool/assets/base.py:93-96 | reference definition: each result keeps its kind and gets the source's metadata over its own; Dispatch.Spread is proved against it, and ImageCarriesMetadata and ContainerFramesCarryMetadata state the outcome |
| Dispatch.Step | xtctool/assets/base.py:74-98 | frames and in-memory assets return themselves; every other result is nearer a frame; only images, containers and PDFs can fail |
| Dispatch.Convert | xtctool/assets/base.py:74-98 | `convert` as each class defines it, with the corrected frame constructor, computes Step, and its results are new assets |
| Dispatch.ConvertFrameFile | xtctool/assets/xtframe.py:57-60 | the frame-file override computes its Step |
| Dispatch.ConvertPicture | xtctool/assets/base.py:87-92 | image conversion, then propagation, computes its Step |
| Dispatch.ConvertContainer | xtctool/assets/base.py:87-96 | container conversion, then propagation, computes its Step |
| Dispatch.ConvertPdf | xtctool/assets/base.py:87-96 | PDF conversion, then propagation, computes its Step |
| Dispatch.Spread | xtctool/assets/base.py:93-96 | the wrapper's loop leaves the items as Propagated says; the source is unchanged |
| Dispatch.ImageCarriesMetadata | xtctool/assets/base.py:90-92 | an image's frame carries the image's metadata exactly |
| Dispatch.PdfMetadataReachesFrames | xtctool/assets/base.py:90-96 | every entry of a PDF's metadata reaches the frame of each of its pages |
| Dispatch.ContainerFramesCarryMetadata | xtctool/assets/base.py:90-96 | a container's frames carry exactly the container's metadata |
| Cli.KindFor | xtctool/cli/convert.py:72-89 | the asset class by lower-cased suffix (`.pdf`, `.png`/`.jpg`/`.jpeg`, `.xtc`, `.xth`/`.xtg`), or none otherwise |
| Cli.FrameFileFormatIsSuffix | xtctool/assets/xtframe.py:54-55 | a frame file's format is its suffix without the dot |
| Cli.ModeFor | xtctool/cli/convert.py:110-120 | output mode by lower-cased suffix: `.xtc` container, `.png`/`.pdf` debug, `.xth`/`.xtg` page files; any other suffix fails |
| Cli.SourceNodes | xtctool/cli/convert.py:124-129 | the recognised sources' assets, in source order, with empty metadata |
| Cli.Converting | xtctool/cli/convert.py:150 | reference definition: the step the loop applies to each asset is that asset's `convert`; its contract states only that it moves assets nearer a frame, and Cli.Drain ties the loop to it |
| Cli.Produce | xtctool/cli/convert.py:137-168 | the frames one asset finally yields, or the first failure |
| Cli.ProduceAllAppend | xtctool/cli/convert.py:137-168 | the frames of two lists are the frames of each, in order |
| Cli.PopMany | xtctool/cli/convert.py:153-156 | a list result is processed next, in list order |
| Cli.PopFrame | xtctool/cli/convert.py:158-160 | a frame result joins the output |
| Cli.PopOther | xtctool/cli/convert.py:162-164 | another single result is converted next |
| Cli.PopSame | xtctool/cli/convert.py:165-168 | the asset itself is output when it is a frame and dropped otherwise |
| Cli.PopFails | xtctool/cli/convert.py:150 | a failing conversion ends the run with its error |
| Cli.Seed | xtctool/cli/convert.py:124-129 | seeding, through `create_asset` (xtctool/cli/convert.py:72-89), pushes the recognised sources in reverse, so the first source is on top; it fails with UnreadableImage exactly when some picture source cannot be opened |
| Cli.OpenFailsFirst | xtctool/cli/convert.py:124-129 | an unreadable picture, opened by `create_asset` (xtctool/cli/convert.py:79-82), fails the run before any conversion, so no conversion failure is reported instead |
| Cli.ReadableSources | xtctool/cli/convert.py:124-168 | without unreadable pictures the run converts every recognised source, depth first |
| Cli.Drain | xtctool/cli/convert.py:137-168 | the loop terminates and outputs the depth-first, left-to-right frames of the stack from its top, or the first failure |
| Cli.Turn | xtctool/cli/convert.py:138-168 | one pass keeps the output-so-far-plus-rest invariant and lowers the work measure |
| Cli.Place | xtctool/cli/convert.py:152-168 | placing a result as the loop does preserves what the run will output |
| Cli.Shrinks | xtctool/cli/convert.py:153-164 | replacing the top by lower-ranked assets removes one asset of its rank |
| Cli.Collect | xtctool/cli/convert.py:124-168 | seeding and draining produce the frames of the recognised sources, source by source, or the seeding or conversion failure |
| Cli.SourcesInOrder | xtctool/cli/convert.py:124-168 | the first source's frames come before the others' |
| Output.Direction | xtctool/cli/convert.py:222-224 | `rtl` is 1, `ttb` is 2, anything else or nothing is 0 |
| Output.Formats | xtctool/cli/convert.py:201 | reference definition: the set of the frames' formats; Output.MixedFormatsIff proves when it has more than one |
| Output.FrameData | xtctool/cli/convert.py:236 | reference definition: the frames' data, in order; Output.WrittenXtcReadsBack proves the container holds it |
| Output.XtcMetadata | xtctool/cli/convert.py:213-220 | the configured title, author, publisher and language, with defaults, stamped with the time |
| Output.WriteXtc | xtctool/cli/convert.py:191-237 | `write_xtc` writes nothing for no frames, fails on mixed formats, and otherwise writes the container |
| Output.MixedFormatsIff | xtctool/cli/convert.py:200-203 | formats are mixed exactly when some frame's format differs from the first frame's |
| Output.WrittenXtcReadsBack | xtctool/cli/convert.py:205-237 | what `write_xtc` writes decodes to the frames' data, with their count, the configured dimensions and the direction |
| Output.WriteXtcFailures | xtctool/cli/convert.py:205-237 | for one format, `write_xtc` fails only on an unknown format or a field out of range, and on the format exactly when it is not `xth`/`xtg` in any case |
| Output.Pad3 | xtctool/cli/convert.py:261 | `{idx:03d}` is at least three digits |
| Output.Pad3Value | xtctool/cli/convert.py:261 | the padded number reads back as the number |
| Output.SinglePageFiles | xtctool/cli/convert.py:242-265 | one file per frame; a single frame goes to the output path itself |
| Output.SinglePageNames | xtctool/cli/convert.py:253-264 | each file holds its frame's data; with several frames the i-th is numbered i+1 |
| Output.WriteSinglePages | xtctool/cli/convert.py:242-265 | `write_single_pages` writes what SinglePageFiles says |
| Output.WriteNumbered | xtctool/cli/convert.py:258-264 | the `enumerate(frames, 1)` loop writes the numbered files in order |
| Output.PageNamesDistinct | xtctool/cli/convert.py:261 | different numbers give different file names, all in the output's directory |
| Output.PageFilesDistinct | xtctool/cli/convert.py:242-265 | no two page files share a name |
| Output.RunConvert | xtctool/cli/convert.py:96-188 | the command checks the output mode, converts every source to frames and writes them, as ConvertSpec says |
| Output.WriteOutput | xtctool/cli/convert.py:176-186 | the output dispatch writes the container, the page files, or hands the frames to the debug writers |
| Output.UnreadablePictureFails | xtctool/cli/convert.py:112-129 | with a valid output type, an unreadable picture fails the command with UnreadableImage |
| Output.BadOutputFailsFirst | xtctool/cli/convert.py:112-113 | an unknown output type fails before any source is read |
| Output.XtcOutputHoldsFrames | xtctool/cli/convert.py:177-178 | an `.xtc` output holds the frames of all sources in order, and nothing is written without frames |

## Left out

- Dithering: the Floyd–Steinberg path of both quantisers (`xtctool/algo/dithering.py` is not part of this model). Only the threshold branches are modelled. The encoders take an already grey image of the target size, so PIL's mode conversion and LANCZOS resizing are left out.
- Image encoding in the pipeline (`ImageAsset._convert_impl`, PIL and the writers' `encode`) is a parameter of the model (`Assets.Env.encode`), which may fail. That file is not part of this model. Its call passes a `resample_method` argument that the `encode` methods of `xth.py` and `xtg.py` do not take.
- PDF rendering, page counting and TOC extraction (`PDFConverter`) are parameters (`Assets.Env`). So is the `pdf.resolution` setting they would read.
- File I/O: `XTCReader.read`, `XTCWriter.write`'s file and the page files are byte sequences. A write that fails halfway is not modelled.
- The clock: `time.time()` is the `now` parameter.
- UTF-8: text fields are byte strings. Encoding, and decoding with `errors='ignore'`, are left out, so a truncation that splits a multi-byte character is not modelled.
- `XTCWriter.__init__` assigns `chapter_count` on the caller's metadata object. The model copies values, so shared aliasing of that object is left out. The block's chapter count is written from the chapter list, as the source does.
- `str.strip`, `str.lower` and `int()` are modelled for ASCII only; within ASCII, `str.strip()` removes U+001C..U+001F as well as C `isspace`, and `int()` skips only C `isspace`. Non-ASCII white space, Unicode digits and underscores in numbers are left out.
- `pathlib` normalisation (repeated or trailing slashes, `.` components) is left out. Paths are plain strings split at `/`.
- The debug outputs (`.png`, `.pdf`): the model returns the frames handed to the debug writers. The writers themselves (`xtctool/debug/output.py`) are not part of this model.
- `load_config` and TOML merging: the configuration is passed in as `Assets.Config`, with each key optional.
- Logging, `tqdm` progress and `click` argument checks (`exists=True`) are left out.
- Class checks by `isinstance` become the cases of `Assets.Kind`. `MemoryAsset` is present but never created by the pipeline.
- Temporary files (`as_file`, `cleanup`, `__del__`) and thumbnails (the writer always writes a zero thumbnail flag and offset) are left out.
- Dispatch.Step, Dispatch.Convert, Dispatch.ConvertPicture, Dispatch.ConvertContainer, Dispatch.ConvertPdf, Dispatch.PdfMetadataReachesFrames, Dispatch.ContainerFramesCarryMetadata, Cli.Drain, Cli.Collect, Output.RunConvert and Output.XtcOutputHoldsFrames model the corrected frame constructor, where a new frame starts with empty metadata. As written, `XTFrameAsset.__init__` sets none, so the wrapper's propagation raises AttributeError. Every picture, container or PDF source therefore fails, and only `.xth`/`.xtg` sources, whose `convert` skips the wrapper, get through. FrameAssets.FrameWithoutMetadata states the as-written behaviour (second Findings row).
- XtcWrite.NewWriter: the constructor's default arguments (480×800, left to right, no chapters, page format `xth`) are not modelled; the model takes every argument, as every caller in the pipeline passes them.
- `Image.open` is a parameter (`Assets.Env.opens`, whether PIL can read the file). Which unreadable picture is reported is not modelled: the error carries no path.
- Pages.ParseDecimal: the `int(str(n))` round trip is stated for non-negative numbers, the only ones page specs write.
- Xth.Encode and Xtg.Encode do not model the resize to the writer's size; they require the grid to have the writer's dimensions.
- The pipeline's container decoding (`ContainerAsset.ContainerSpec`) uses the reader as written, which matters only for chapters. Its frames are the same under either rule for files the writer produces.

## Findings

| source | as written | input that shows it | evidently intended | confidence | as-written member | corrected member |
|---|---|---|---|---|---|---|
| xtctool/core/xtc.py:295 | `_read_chapters` gets `has_chapters`, the header byte the writer sets to 1 (xtctool/core/xtc.py:105), as its record count | a writer with two chapters, then `decode`: `reader.chapters` has one entry | read as many records as the metadata block's `chapter_count` (xtctool/core/xtc.py:141 and xtctool/core/xtc.py:347), which tests/test_toc_to_xtc.py:93 and tests/test_xtc_concat_chapters.py:117 expect | not executed | XtcRoundTrip.ChapterCountQuirk | XtcRoundTrip.AllChaptersReadBack |
| xtctool/assets/xtframe.py:16-25 | `XTFrameAsset.__init__` never calls `Asset.__init__`, so a new frame has no `metadata`; the wrapper's `propagate_metadata` (xtctool/assets/base.py:61 and xtctool/assets/base.py:90-96) then raises AttributeError | an image or a container converted by `convert`: propagation into the new frame fails, even with empty source metadata | frames start with empty metadata, as every other asset does, and receive the source's | not executed | FrameAssets.FrameWithoutMetadata | Dispatch.ImageCarriesMetadata |
