/** The writing half of the `convert` command: the frames as one `.xtc`
    file (`write_xtc`) or as numbered page files (`write_single_pages`),
    and the whole command from sources to what it writes. */
module Output {
  import opened Results
  import opened Bytes
  import opened Text
  import opened Paths
  import opened Pages
  import opened Assets
  import opened XtcLayout
  import opened XtcWrite
  import opened XtcRead
  import opened XtcRoundTrip
  import opened Dispatch
  import opened Cli

  // ---- write_xtc ----

  /** `direction_map.get(direction, 0)`, the direction defaulting to `ltr`. */
  function Direction(d: Option<string>): (r: int)
    ensures r == DIR_LEFT_TO_RIGHT || r == DIR_RIGHT_TO_LEFT || r == DIR_TOP_TO_BOTTOM
    ensures r == DIR_RIGHT_TO_LEFT <==> d == Some("rtl")
    ensures r == DIR_TOP_TO_BOTTOM <==> d == Some("ttb")
  {
    var key := if d.Some? then d.value else "ltr";
    if key == "ltr" then DIR_LEFT_TO_RIGHT
    else if key == "rtl" then DIR_RIGHT_TO_LEFT
    else if key == "ttb" then DIR_TOP_TO_BOTTOM
    else DIR_LEFT_TO_RIGHT
  }

  function Or<T>(o: Option<T>, default: T): T {
    if o.Some? then o.value else default
  }

  predicate AllFrames(frames: seq<Node>) {
    forall i :: 0 <= i < |frames| ==> frames[i].kind.Frame?
  }

  /** `set(f.format for f in frames)`. */
  function Formats(frames: seq<Node>): (r: set<string>)
    requires AllFrames(frames)
    ensures forall f :: f in r <==> exists i :: 0 <= i < |frames| && frames[i].kind.format == f
  {
    set i | 0 <= i < |frames| :: frames[i].kind.format
  }

  /** `[frame.data for frame in frames]`. */
  function FrameData(frames: seq<Node>): (r: seq<seq<byte>>)
    requires AllFrames(frames)
    ensures |r| == |frames|
    ensures forall i :: 0 <= i < |frames| ==> r[i] == frames[i].kind.data
  {
    seq(|frames|, i requires 0 <= i < |frames| => frames[i].kind.data)
  }

  /** The `XTCMetadata` built from the `output` section, stamped `now`. */
  function XtcMetadata(out: OutputConfig, now: int): (m: Metadata)
    ensures m == DefaultMetadata(now).(title := Or(out.title, []), author := Or(out.author, []),
                                       publisher := Or(out.publisher, []), language := Or(out.language, EN_US))
  {
    Metadata(Or(out.title, []), Or(out.author, []), Or(out.publisher, []), Or(out.language, EN_US),
             now, 0xFFFF, 0)
  }

  /** The writer `write_xtc` constructs for frames of format `format`. */
  function XtcWriterFor(out: OutputConfig, format: string, now: int): Result<XtcWriter> {
    NewWriter(Or(out.width, 480), Or(out.height, 800), Direction(out.direction),
              Some(XtcMetadata(out, now)), [], format, now)
  }

  /** `write_xtc` on values: nothing for no frames, a failure for mixed
      formats or one the writer refuses, otherwise the file's bytes. */
  function WriteXtcSpec(frames: seq<Node>, out: OutputConfig, now: int): (r: Result<Option<seq<byte>>>)
    requires AllFrames(frames)
  {
    if frames == [] then Ok(None)
    else if |Formats(frames)| > 1 then Err(MixedFormats)
    else
      var w :- XtcWriterFor(out, frames[0].kind.format, now);
      var bytes :- w.WriteSpec(FrameData(frames));
      Ok(Some(bytes))
  }

  /** `write_xtc(output, frames, cfg)`, the file's contents returned rather
      than written. */
  method WriteXtc(frames: seq<Asset>, out: OutputConfig, now: int) returns (r: Result<Option<seq<byte>>>)
    requires AllFrames(Views(frames))
    ensures r == WriteXtcSpec(Views(frames), out, now)
  {
    var nodes := Views(frames);
    if frames == [] {
      return Ok(None);
    }
    if |Formats(nodes)| > 1 {
      return Err(MixedFormats);
    }
    var w :- XtcWriterFor(out, frames[0].kind.format, now);
    var bytes :- w.Write(FrameData(nodes));
    return Ok(Some(bytes));
  }

  /** Formats are mixed exactly when some frame's format differs from the
      first frame's. */
  lemma MixedFormatsIff(frames: seq<Node>)
    requires AllFrames(frames) && frames != []
    ensures |Formats(frames)| > 1 <==> exists i :: 0 <= i < |frames| && frames[i].kind.format != frames[0].kind.format
  {
    var f0 := frames[0].kind.format;
    var fs := Formats(frames);
    assert f0 in fs;
    if exists i :: 0 <= i < |frames| && frames[i].kind.format != f0 {
      var i :| 0 <= i < |frames| && frames[i].kind.format != f0;
      assert {f0, frames[i].kind.format} <= fs;
      StringSubsetCard({f0, frames[i].kind.format}, fs);
    } else {
      assert fs == {f0};
    }
  }

  lemma StringSubsetCard(a: set<string>, b: set<string>)
    requires a <= b
    ensures |a| <= |b|
  {
    assert b == a + (b - a);
  }

  /** What `write_xtc` writes reads back as the frames' data, in order,
      with the page count, dimensions and reading direction it was given. */
  lemma WrittenXtcReadsBack(frames: seq<Node>, out: OutputConfig, now: int)
    requires AllFrames(frames)
    requires WriteXtcSpec(frames, out, now).Ok? && frames != []
    ensures WriteXtcSpec(frames, out, now).value.Some?
    ensures var (st, data) := DecodeSpec(INITIAL, WriteXtcSpec(frames, out, now).value.value, FlagByte);
            && data == Ok(FrameData(frames))
            && st.pageCount == |frames|
            && st.width == Or(out.width, 480) && st.height == Or(out.height, 800)
            && st.readingDirection == Direction(out.direction)
  {
    var w := XtcWriterFor(out, frames[0].kind.format, now).value;
    var bytes := w.WriteSpec(FrameData(frames)).value;
    assert WriteXtcSpec(frames, out, now) == Ok(Some(bytes));
    WriteThenDecode(w, FrameData(frames), bytes, INITIAL, FlagByte);
  }

  /** The failures of `write_xtc`: mixed formats, a format the writer does
      not know, a field out of range; and a single format that is `xth` or
      `xtg` in any case passes the format checks. */
  lemma WriteXtcFailures(frames: seq<Node>, out: OutputConfig, now: int)
    requires AllFrames(frames) && frames != [] && |Formats(frames)| <= 1
    ensures WriteXtcSpec(frames, out, now).Err? ==>
              WriteXtcSpec(frames, out, now).error == InvalidPageFormat
              || WriteXtcSpec(frames, out, now).error == FieldOverflow
    ensures (WriteXtcSpec(frames, out, now) == Err(InvalidPageFormat)) <==>
              !(Lower(frames[0].kind.format) in ["xtg", "xth"])
  {
    var w := XtcWriterFor(out, frames[0].kind.format, now);
    if w.Ok? {
      assert FrameData(frames) != [];
    }
  }

  // ---- write_single_pages ----

  /** `f"{n:03d}"` for `n >= 0`: the decimal digits, zero-padded to three. */
  function Pad3(n: nat): (s: string)
    ensures AllDigits(s) && |s| >= 3
  {
    var d := Decimal(n);
    if |d| == 1 then "00" + d else if |d| == 2 then "0" + d else d
  }

  /** A leading zero does not change a number. */
  lemma {:induction false} LeadingZero(s: string)
    requires AllDigits(s)
    ensures AllDigits("0" + s) && DigitsValue("0" + s) == DigitsValue(s)
  {
    if s != [] {
      var init := s[..|s| - 1];
      LeadingZero(init);
      assert ("0" + s)[..|s|] == "0" + init;
    }
  }

  /** The padded number reads back as the number. */
  lemma Pad3Value(n: nat)
    ensures DigitsValue(Pad3(n)) == n
  {
    DecimalValue(n);
    var d := Decimal(n);
    LeadingZero(d);
    if |d| == 1 {
      LeadingZero("0" + d);
      assert "00" + d == "0" + ("0" + d);
    }
  }

  /** `f"{stem}_{idx:03d}{suffix}"`. */
  function PageName(output: string, idx: nat): string {
    Stem(output) + "_" + Pad3(idx) + Suffix(output)
  }

  /** `parent / f"{stem}_{idx:03d}{suffix}"`. */
  function PageFileName(output: string, idx: nat): string {
    Sibling(output, PageName(output, idx))
  }

  /** `write_single_pages` on values: the files it writes, as names with
      contents. One frame goes to `output` itself; several go to numbered
      files from 1 (`SinglePageNames`); none writes nothing. */
  function SinglePageFiles(output: string, data: seq<seq<byte>>): (r: seq<(string, seq<byte>)>)
    ensures |r| == |data|
    ensures |data| == 1 ==> r == [(output, data[0])]
  {
    if |data| == 1 then [(output, data[0])] else Numbered(PageNames(output), data)
  }

  /** The numbering of page files next to `output`. */
  function PageNames(output: string): (name: nat -> string)
    ensures forall idx: nat :: name(idx) == PageFileName(output, idx)
  {
    (idx: nat) => PageFileName(output, idx)
  }

  /** The files `name(1)`, `name(2)`, ... holding `data` in order. */
  function Numbered(name: nat -> string, data: seq<seq<byte>>): (r: seq<(string, seq<byte>)>)
    ensures |r| == |data|
  {
    if data == [] then []
    else Numbered(name, data[..|data| - 1]) + [(name(|data|), data[|data| - 1])]
  }

  lemma {:induction false} NumberedAt(name: nat -> string, data: seq<seq<byte>>)
    ensures forall i :: 0 <= i < |data| ==> Numbered(name, data)[i] == (name(i + 1), data[i])
  {
    if data != [] {
      NumberedAt(name, data[..|data| - 1]);
    }
  }

  /** Each file holds its frame's data, in order; with several frames the
      `i`-th (from 0) is named with number `i + 1`. */
  lemma SinglePageNames(output: string, data: seq<seq<byte>>)
    ensures var files := SinglePageFiles(output, data);
            && (forall i :: 0 <= i < |data| ==> files[i].1 == data[i])
            && (|data| != 1 ==> forall i :: 0 <= i < |data| ==> files[i].0 == PageFileName(output, i + 1))
  {
    NumberedAt(PageNames(output), data);
  }

  /** `write_single_pages(output, frames)`, each write recorded as a name
      and the bytes written. */
  method WriteSinglePages(output: string, frames: seq<Asset>) returns (files: seq<(string, seq<byte>)>)
    requires AllFrames(Views(frames))
    ensures files == SinglePageFiles(output, FrameData(Views(frames)))
  {
    if frames == [] {
      return [];
    }
    if |frames| == 1 {
      return [(output, frames[0].kind.data)];
    }
    files := WriteNumbered(output, frames);
  }

  /** The loop of `write_single_pages` over `enumerate(frames, 1)`. */
  method WriteNumbered(output: string, frames: seq<Asset>) returns (files: seq<(string, seq<byte>)>)
    requires AllFrames(Views(frames))
    ensures files == Numbered(PageNames(output), FrameData(Views(frames)))
  {
    ghost var data := FrameData(Views(frames));
    files := [];
    for idx := 1 to |frames| + 1
      invariant files == Numbered(PageNames(output), data[..idx - 1])
    {
      var name := PageFileName(output, idx);
      NumberedSnoc(PageNames(output), data, idx - 1);
      files := files + [(name, frames[idx - 1].kind.data)];
    }
    assert data[..|frames|] == data;
  }

  lemma NumberedSnoc(name: nat -> string, data: seq<seq<byte>>, k: nat)
    requires k < |data|
    ensures Numbered(name, data[..k + 1]) == Numbered(name, data[..k]) + [(name(k + 1), data[k])]
  {
    assert data[..k + 1][..k] == data[..k];
  }

  /** Numbered page files never collide: different numbers give different
      names, all in the directory of `output`. */
  lemma PageNamesDistinct(output: string, i: nat, j: nat)
    requires i != j
    ensures PageFileName(output, i) != PageFileName(output, j)
    ensures PageFileName(output, i)[..NameStart(output)] == output[..NameStart(output)]
  {
    var dir := output[..NameStart(output)];
    var pre := Stem(output) + "_";
    var post := Suffix(output);
    var ni := PageName(output, i);
    var nj := PageName(output, j);
    assert PageFileName(output, i) == dir + ni;
    assert PageFileName(output, j) == dir + nj;
    if dir + ni == dir + nj {
      Middle(dir, ni, nj, []);
      Middle(pre, Pad3(i), Pad3(j), post);
      Pad3Value(i);
      Pad3Value(j);
      assert false;
    }
    assert (dir + ni)[..|dir|] == dir;
  }

  /** The middle of two strings with the same ends and the same length. */
  lemma Middle(pre: string, a: string, b: string, post: string)
    requires pre + a + post == pre + b + post
    ensures a == b
  {
    assert |a| == |b|;
    assert a == (pre + a + post)[|pre|..|pre| + |a|];
    assert b == (pre + b + post)[|pre|..|pre| + |b|];
  }

  /** The page files get each name once. */
  lemma PageFilesDistinct(output: string, data: seq<seq<byte>>)
    ensures var files := SinglePageFiles(output, data);
            forall i, j :: 0 <= i < j < |files| ==> files[i].0 != files[j].0
  {
    var files := SinglePageFiles(output, data);
    if |data| != 1 {
      SinglePageNames(output, data);
      forall i, j | 0 <= i < j < |files| ensures files[i].0 != files[j].0 {
        PageNamesDistinct(output, i + 1, j + 1);
      }
    }
  }

  // ---- the whole command ----

  /** What the command ends with: the `.xtc` bytes (none for no frames),
      the page files, or the frames handed to the debug writers. */
  datatype Written =
    | XtcBytes(bytes: Option<seq<byte>>)
    | PageFiles(files: seq<(string, seq<byte>)>)
    | DebugFrames(frames: seq<Node>)

  /** `convert(sources, output, config)` on values, with `now` standing for
      the clock: the output mode is checked first, then every source is
      converted to frames, then the frames are written. */
  function ConvertSpec(sources: seq<string>, output: string, env: Env, config: Config, now: int): (r: Result<Written>)
  {
    var mode :- OutputMode(output);
    var frames :- SourceFrames(sources, env, config);
    Emit(mode, output, frames, config.output, now)
  }

  /** The writing step for the chosen mode. */
  function Emit(mode: Mode, output: string, frames: seq<Node>, out: OutputConfig, now: int): (r: Result<Written>)
    requires AllFrames(frames)
  {
    match mode
    case XtcFile =>
      var bytes :- WriteXtcSpec(frames, out, now);
      Ok(XtcBytes(bytes))
    case SinglePages => Ok(PageFiles(SinglePageFiles(output, FrameData(frames))))
    case Debug => Ok(DebugFrames(frames))
  }

  /** The `convert` command: the mode, the worklist, then the writer. */
  method RunConvert(sources: seq<string>, output: string, env: Env, config: Config, now: int)
    returns (r: Result<Written>)
    ensures r == ConvertSpec(sources, output, env, config, now)
  {
    var chosen := OutputMode(output);
    if chosen.Err? {
      BadOutputFailsFirst(sources, output, env, config, now);
      return Err(chosen.error);
    }
    var mode := chosen.value;
    var collected := Collect(sources, env, config);
    if collected.Err? {
      ConversionFails(sources, output, env, config, now, collected.error);
      return Err(collected.error);
    }
    ConvertSpecIs(sources, output, env, config, now, mode, Views(collected.value));
    r := WriteOutput(mode, output, collected.value, config.output, now);
  }

  lemma ConvertSpecIs(sources: seq<string>, output: string, env: Env, config: Config, now: int,
                      mode: Mode, frames: seq<Node>)
    requires OutputMode(output) == Ok(mode)
    requires SourceFrames(sources, env, config) == Ok(frames)
    ensures AllFrames(frames)
    ensures ConvertSpec(sources, output, env, config, now) == Emit(mode, output, frames, config.output, now)
  {
  }

  lemma ConversionFails(sources: seq<string>, output: string, env: Env, config: Config, now: int, e: Error)
    requires OutputMode(output).Ok?
    requires SourceFrames(sources, env, config) == Err(e)
    ensures ConvertSpec(sources, output, env, config, now) == Err(e)
  {
  }

  /** The `if output_mode == ...` dispatch at the end of `convert`. */
  method WriteOutput(mode: Mode, output: string, frames: seq<Asset>, out: OutputConfig, now: int)
    returns (r: Result<Written>)
    requires AllFrames(Views(frames))
    ensures r == Emit(mode, output, Views(frames), out, now)
  {
    match mode {
      case XtcFile =>
        var bytes :- WriteXtc(frames, out, now);
        return Ok(XtcBytes(bytes));
      case SinglePages =>
        var files := WriteSinglePages(output, frames);
        return Ok(PageFiles(files));
      case Debug =>
        return Ok(DebugFrames(Views(frames)));
    }
  }

  /** An output path of an unknown type fails before any source is read. */
  lemma BadOutputFailsFirst(sources: seq<string>, output: string, env: Env, config: Config, now: int)
    requires OutputMode(output).Err?
    ensures ConvertSpec(sources, output, env, config, now) == Err(BadOutputExtension)
  {
  }

  /** With a valid output type, an unreadable picture fails the command
      while the stack is seeded, whatever the other sources would do. */
  lemma UnreadablePictureFails(sources: seq<string>, output: string, env: Env, config: Config, now: int, i: nat)
    requires OutputMode(output).Ok?
    requires i < |sources| && Unreadable(env, sources[i])
    ensures ConvertSpec(sources, output, env, config, now) == Err(UnreadableImage)
  {
    OpenFailsFirst(sources, env, config, i);
  }

  /** An `.xtc` output holds the frames of all sources, in order. */
  lemma XtcOutputHoldsFrames(sources: seq<string>, output: string, env: Env, config: Config, now: int)
    requires OutputMode(output) == Ok(XtcFile)
    requires ConvertSpec(sources, output, env, config, now).Ok?
    ensures var frames := SourceFrames(sources, env, config).value;
            var written := ConvertSpec(sources, output, env, config, now).value;
            && written.XtcBytes?
            && (frames == [] <==> written.bytes.None?)
            && (written.bytes.Some? ==> DecodeSpec(INITIAL, written.bytes.value, FlagByte).1 == Ok(FrameData(frames)))
  {
    var frames := SourceFrames(sources, env, config).value;
    if frames != [] {
      WrittenXtcReadsBack(frames, config.output, now);
    }
  }
}
