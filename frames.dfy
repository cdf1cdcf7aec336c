/** Frame assets: an `.xth`/`.xtg` file on disk, and a frame in memory,
    which is where every conversion ends. */
module FrameAssets {
  import opened Results
  import opened Bytes
  import opened Text
  import opened Paths
  import opened Assets

  /** The format a `FileXTFrameAsset` records for its path: the lower-cased
      `os.path.splitext` extension without its dot when that is `.xth` or
      `.xtg`, and `xth` otherwise. */
  function FrameFileFormat(path: string): (r: string)
    ensures r == "xth" || r == "xtg"
    ensures r == "xtg" <==> Lower(SplitExt(path)) == ".xtg"
  {
    var ext := Lower(SplitExt(path));
    if ext == ".xth" || ext == ".xtg" then ext[1..] else "xth"
  }

  /** `FileXTFrameAsset(path)`. */
  function NewFrameFile(path: string): (k: Kind)
    ensures k.FrameFile? && k.path == path && (k.format == "xth" || k.format == "xtg")
  {
    FrameFile(path, FrameFileFormat(path))
  }

  /** `XTFrameAsset.convert`: a frame is final and converts to itself. */
  function FrameStep(n: Node): (e: Expansion)
    requires n.kind.Frame?
    ensures e == Itself
  {
    Itself
  }

  /** `FileXTFrameAsset.convert`: a frame holding the file's bytes in the
      recorded format. It overrides `convert`, so nothing is propagated and
      the new frame's metadata is empty. */
  function FrameFileStep(n: Node, env: Env): (e: Expansion)
    requires n.kind.FrameFile?
    ensures e.Single? && e.node.kind == Frame(env.files(n.kind.path), n.kind.format)
    ensures e.node.meta == map[]
  {
    Single(Node(Frame(env.files(n.kind.path), n.kind.format), map[]))
  }

  // ---- the frame constructor as written ----

  /** The attributes an `XTFrameAsset` has after its constructor: it sets
      data, format and the temporary-file slot and never runs
      `Asset.__init__`, so there is no `metadata` attribute (`None` here). */
  datatype FrameAttributes = FrameAttributes(
    data: seq<byte>, format: string, tempFile: Option<string>, metadata: Option<Meta>)

  function NewFrameAsWritten(data: seq<byte>, format: string): (f: FrameAttributes)
    ensures f.data == data && f.format == format && f.tempFile.None?
    ensures f.metadata.None?
  {
    FrameAttributes(data, format, None, None)
  }

  /** `source.propagate_metadata(target)` on the attributes of `target`:
      `target.metadata.update(...)` fails when the attribute is missing. */
  function PropagateAsWritten(source: Meta, target: Option<Meta>): (r: Result<Meta>)
    ensures target.None? ==> r == Err(AttributeError)
    ensures target.Some? ==> r == Ok(Update(target.value, source))
  {
    if target.None? then Err(AttributeError) else Ok(Update(target.value, source))
  }

  /** With the constructor as written, the `convert` wrapper fails on every
      conversion that yields new frames (an image becoming a frame, a
      container becoming frames), whatever the source's metadata, even
      none at all. */
  lemma FrameWithoutMetadata(source: Meta, data: seq<byte>, format: string)
    ensures PropagateAsWritten(source, NewFrameAsWritten(data, format).metadata) == Err(AttributeError)
    ensures PropagateAsWritten(map[], NewFrameAsWritten(data, format).metadata) == Err(AttributeError)
  {
  }

  /** A frame built by the shared constructor, as `Asset.__init__` would
      build it, takes the source's metadata unchanged. */
  lemma FrameWithMetadata(source: Meta)
    ensures PropagateAsWritten(source, Some(map[])) == Ok(source)
  {
    assert Update(map[], source) == source;
  }
}
