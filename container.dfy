/** `XTContainerAsset`: an `.xtc` file becomes one frame asset per stored
    page, or per selected page when the asset carries a `page_spec`. */
module ContainerAsset {
  import opened Results
  import opened Bytes
  import opened FrameFormat
  import opened XtcRead
  import opened Pages
  import opened Assets

  /** The format of the container's frames, read from the first frame's
      little-endian magic only. */
  function FramesFormat(frames: seq<seq<byte>>): (r: Result<string>)
    ensures frames == [] ==> r == Err(NoFrames)
    ensures frames != [] && |frames[0]| < 4 ==> r == Err(Truncated)
    ensures r.Ok? <==> frames != [] && |frames[0]| >= 4
                       && (FromLe(frames[0][0..4]) == XTH_MAGIC || FromLe(frames[0][0..4]) == XTG_MAGIC)
    ensures r.Ok? ==> (r.value == "xth" <==> FromLe(frames[0][0..4]) == XTH_MAGIC)
    ensures r.Ok? ==> (r.value == "xtg" <==> FromLe(frames[0][0..4]) == XTG_MAGIC)
    ensures r.Err? && frames != [] && |frames[0]| >= 4 ==> r.error == UnknownFrameFormat
  {
    if frames == [] then Err(NoFrames)
    else
      var magic :- Unpack(frames[0], 0, 4);
      if magic == XTH_MAGIC then Ok("xth")
      else if magic == XTG_MAGIC then Ok("xtg")
      else Err(UnknownFrameFormat)
  }

  /** `[frames[i - 1] for i in pages]`. */
  function Pick(frames: seq<seq<byte>>, pages: seq<int>): (r: seq<seq<byte>>)
    requires forall i :: 0 <= i < |pages| ==> 1 <= pages[i] <= |frames|
    ensures |r| == |pages|
    ensures forall i :: 0 <= i < |pages| ==> r[i] == frames[pages[i] - 1]
  {
    seq(|pages|, i requires 0 <= i < |pages| => frames[pages[i] - 1])
  }

  /** The frames the container keeps: all of them, or the pages a spec
      selects, in the spec's order. */
  function Selected(frames: seq<seq<byte>>, spec: Option<string>): (r: Result<seq<seq<byte>>>)
    ensures spec.None? ==> r == Ok(frames)
    ensures spec.Some? ==> r.Ok? == PageRange(spec.value, |frames|).Ok?
    ensures spec.Some? && r.Ok? ==> |r.value| == |PageRange(spec.value, |frames|).value|
    ensures r.Err? ==> r.error == InvalidNumber
  {
    if spec.None? then Ok(frames)
    else
      var pages := PageRange(spec.value, |frames|);
      if pages.Err? then Err(pages.error)
      else
        PageRangeBounds(spec.value, |frames|);
        Ok(Pick(frames, pages.value))
  }

  /** What `_convert_impl` produces before the wrapper propagates metadata:
      the format and the kept frames, each as a frame asset with empty
      metadata. */
  function ContainerSpec(path: string, meta: Meta, env: Env): (r: Result<seq<Node>>)
    ensures r.Ok? ==> forall i :: 0 <= i < |r.value| ==> r.value[i].kind.Frame? && r.value[i].meta == map[]
  {
    var frames :- DecodeSpec(INITIAL, env.files(path), FlagByte).1;
    var format :- FramesFormat(frames);
    var spec :- PageSpec(meta);
    var kept :- Selected(frames, spec);
    Ok(FrameNodes(kept, format))
  }

  function FrameNodes(frames: seq<seq<byte>>, format: string): (r: seq<Node>)
    ensures |r| == |frames|
    ensures forall i :: 0 <= i < |frames| ==> r[i] == Node(Frame(frames[i], format), map[])
  {
    seq(|frames|, i requires 0 <= i < |frames| => Node(Frame(frames[i], format), map[]))
  }

  /** `XTContainerAsset._convert_impl`: read and decode the file, detect the
      format, select pages, then build one frame asset per kept frame. */
  method ContainerImpl(a: Asset, env: Env) returns (r: Result<Outcome>)
    requires a.kind.Container?
    ensures r.Err? ==> ContainerSpec(a.kind.path, a.metadata, env) == Err(r.error)
    ensures r.Ok? ==> r.value.Many? && (forall i :: 0 <= i < |r.value.items| ==> fresh(r.value.items[i]))
                      && ContainerSpec(a.kind.path, a.metadata, env) == Ok(Views(r.value.items))
  {
    var reader := new XtcReader();
    var frames :- reader.Decode(env.files(a.kind.path));
    var format :- FramesFormat(frames);
    var spec :- PageSpec(a.metadata);
    var kept :- SelectFrames(frames, spec);
    var assets := FrameAssets(kept, format);
    return Ok(Many(assets));
  }

  /** The page-selection step of `_convert_impl`. */
  method SelectFrames(frames: seq<seq<byte>>, spec: Option<string>) returns (r: Result<seq<seq<byte>>>)
    ensures r == Selected(frames, spec)
  {
    if spec.None? {
      return Ok(frames);
    }
    var pages :- ParsePageRange(spec.value, |frames|);
    PageRangeBounds(spec.value, |frames|);
    return Ok(Pick(frames, pages));
  }

  /** The loop of `_convert_impl` that wraps each kept frame in a new frame
      asset. */
  method FrameAssets(frames: seq<seq<byte>>, format: string) returns (assets: seq<Asset>)
    ensures forall i :: 0 <= i < |assets| ==> fresh(assets[i])
    ensures Views(assets) == FrameNodes(frames, format)
  {
    assets := [];
    for i := 0 to |frames|
      invariant |assets| == i
      invariant forall k :: 0 <= k < i ==> fresh(assets[k]) && View(assets[k]) == Node(Frame(frames[k], format), map[])
    {
      var frame := new Asset(Frame(frames[i], format));
      assets := assets + [frame];
    }
  }

  /** A page spec picks stored frames by 1-based number, each at most once,
      in the order the spec first lists them. */
  lemma SelectionPicksFrames(frames: seq<seq<byte>>, spec: string)
    requires Selected(frames, Some(spec)).Ok?
    ensures var pages := PageRange(spec, |frames|).value;
            var kept := Selected(frames, Some(spec)).value;
            && Distinct(pages)
            && (forall i :: 0 <= i < |pages| ==> 1 <= pages[i] <= |frames| && kept[i] == frames[pages[i] - 1])
            && |kept| <= |frames|
  {
    var pages := PageRange(spec, |frames|).value;
    PageRangeBounds(spec, |frames|);
    assert Selected(frames, Some(spec)).value == Pick(frames, pages);
    DistinctInRange(pages, |frames|);
  }

  /** Distinct numbers within `1..n` are at most `n`. */
  lemma {:induction false} DistinctInRange(s: seq<int>, n: nat)
    requires Distinct(s) && forall i :: 0 <= i < |s| ==> 1 <= s[i] <= n
    ensures |s| <= n
  {
    var elems := set i | 0 <= i < |s| :: s[i];
    var range := Numbers(n);
    assert elems <= range;
    DistinctCard(s);
    SubsetCard(elems, range);
  }

  /** The set `{1, ..., n}`. */
  function Numbers(n: nat): (r: set<int>)
    ensures |r| == n
    ensures forall p :: p in r <==> 1 <= p <= n
  {
    if n == 0 then {} else Numbers(n - 1) + {n}
  }

  lemma {:induction false} DistinctCard(s: seq<int>)
    requires Distinct(s)
    ensures |set i | 0 <= i < |s| :: s[i]| == |s|
  {
    if s != [] {
      var init := s[..|s| - 1];
      DistinctCard(init);
      assert (set i | 0 <= i < |s| :: s[i]) == (set i | 0 <= i < |init| :: init[i]) + {s[|s| - 1]};
    }
  }

  lemma SubsetCard(a: set<int>, b: set<int>)
    requires a <= b
    ensures |a| <= |b|
  {
    assert b == a + (b - a);
  }

  /** A container without a page spec yields all its frames, in stored
      order, tagged with the format of the first. */
  lemma NoSpecKeepsAll(path: string, meta: Meta, env: Env)
    requires PageSpec(meta) == Ok(None)
    requires ContainerSpec(path, meta, env).Ok?
    ensures var frames := DecodeSpec(INITIAL, env.files(path), FlagByte).1.value;
            var nodes := ContainerSpec(path, meta, env).value;
            |nodes| == |frames|
            && forall i :: 0 <= i < |frames| ==> nodes[i].kind == Frame(frames[i], FramesFormat(frames).value)
  {
  }
}
