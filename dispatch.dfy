/** One conversion step of any asset: `convert` as each class defines it,
    the generic wrapper's metadata propagation included. */
module Dispatch {
  import opened Results
  import opened Assets
  import opened FrameAssets
  import opened ContainerAsset
  import opened PdfAsset

  /** The wrapper's propagation on values: every produced node has the
      source's entries added over its own. */
  function Propagated(nodes: seq<Node>, meta: Meta): (r: seq<Node>)
    ensures |r| == |nodes|
    ensures forall i :: 0 <= i < |nodes| ==> r[i].kind == nodes[i].kind && r[i].meta == Update(nodes[i].meta, meta)
  {
    seq(|nodes|, i requires 0 <= i < |nodes| => Node(nodes[i].kind, Update(nodes[i].meta, meta)))
  }

  /** `convert` on an asset as a value. Frames and in-memory assets are
      final (the asset itself); a frame file is read into a frame without
      propagation; an image is encoded into a frame, and a container or a
      PDF is expanded, and these get the source's metadata. Every produced
      asset is closer to a frame than its source. */
  function Step(n: Node, env: Env, config: Config): (r: Result<Expansion>)
    ensures r.Ok? && r.value.Itself? <==> n.kind.Frame? || n.kind.Memory?
    ensures r.Ok? && r.value.Single? ==> Rank(r.value.node.kind) < Rank(n.kind)
    ensures r.Ok? && r.value.Several? ==> forall i :: 0 <= i < |r.value.nodes| ==> Rank(r.value.nodes[i].kind) < Rank(n.kind)
    ensures r.Err? ==> n.kind.Picture? || n.kind.Container? || n.kind.Pdf?
  {
    match n.kind
    case Frame(_, _) => Ok(FrameStep(n))
    case Memory(_) => Ok(Itself)
    case FrameFile(_, _) => Ok(FrameFileStep(n, env))
    case Picture(image) =>
      var encoded :- env.encode(image);
      Ok(Single(Node(Frame(encoded.0, encoded.1), Update(map[], n.meta))))
    case Container(path) =>
      var nodes :- ContainerSpec(path, n.meta, env);
      Ok(Several(Propagated(nodes, n.meta)))
    case Pdf(path) =>
      var nodes :- PdfSpec(path, n.meta, env, config);
      Ok(Several(Propagated(nodes, n.meta)))
  }

  /** `asset.convert(config)`: the result of `_convert_impl` (or of the
      overriding `convert`), with the source's metadata propagated onto new
      results. Nothing that existed before is changed. */
  method Convert(a: Asset, env: Env, config: Config) returns (r: Result<Outcome>)
    ensures r.Err? ==> Step(View(a), env, config) == Err(r.error)
    ensures r.Ok? ==> (forall x :: x in Targets(r.value) ==> fresh(x))
                      && Step(View(a), env, config) == Ok(OutcomeView(r.value))
  {
    match a.kind {
      case Frame(_, _) =>
        return Ok(Same);
      case Memory(_) =>
        return Ok(Same);
      case FrameFile(_, _) =>
        r := ConvertFrameFile(a, env, config);
      case Picture(image) =>
        r := ConvertPicture(a, env, config);
      case Container(_) =>
        r := ConvertContainer(a, env, config);
      case Pdf(_) =>
        r := ConvertPdf(a, env, config);
    }
  }

  /** `FileXTFrameAsset.convert`: a new frame asset over the file's bytes. */
  method ConvertFrameFile(a: Asset, env: Env, config: Config) returns (r: Result<Outcome>)
    requires a.kind.FrameFile?
    ensures r.Err? ==> Step(View(a), env, config) == Err(r.error)
    ensures r.Ok? ==> (forall x :: x in Targets(r.value) ==> fresh(x))
                      && Step(View(a), env, config) == Ok(OutcomeView(r.value))
  {
    var frame := new Asset(Frame(env.files(a.kind.path), a.kind.format));
    return Ok(One(frame));
  }

  /** `ImageAsset.convert`: the encoded frame, then propagation. */
  method ConvertPicture(a: Asset, env: Env, config: Config) returns (r: Result<Outcome>)
    requires a.kind.Picture?
    ensures r.Err? ==> Step(View(a), env, config) == Err(r.error)
    ensures r.Ok? ==> (forall x :: x in Targets(r.value) ==> fresh(x))
                      && Step(View(a), env, config) == Ok(OutcomeView(r.value))
  {
    var encoded :- env.encode(a.kind.image);
    var frame := new Asset(Frame(encoded.0, encoded.1));
    PropagateResult(a, One(frame));
    return Ok(One(frame));
  }

  /** `XTContainerAsset.convert`: the frames, then propagation. */
  method ConvertContainer(a: Asset, env: Env, config: Config) returns (r: Result<Outcome>)
    requires a.kind.Container?
    ensures r.Err? ==> Step(View(a), env, config) == Err(r.error)
    ensures r.Ok? ==> (forall x :: x in Targets(r.value) ==> fresh(x))
                      && Step(View(a), env, config) == Ok(OutcomeView(r.value))
  {
    var o := ContainerImpl(a, env);
    r := PropagateContainer(a, o, env, config);
  }

  /** The wrapper's propagation after a container's `_convert_impl`. */
  method PropagateContainer(a: Asset, o: Result<Outcome>, env: Env, config: Config) returns (r: Result<Outcome>)
    requires a.kind.Container?
    requires o.Err? ==> ContainerSpec(a.kind.path, a.metadata, env) == Err(o.error)
    requires o.Ok? ==> o.value.Many? && (forall i :: 0 <= i < |o.value.items| ==> o.value.items[i] != a)
                       && ContainerSpec(a.kind.path, a.metadata, env) == Ok(Views(o.value.items))
    modifies if o.Ok? then Targets(o.value) else {}
    ensures r == o
    ensures r.Err? ==> Step(View(a), env, config) == Err(r.error)
    ensures r.Ok? ==> Step(View(a), env, config) == Ok(OutcomeView(r.value))
  {
    if o.Err? {
      ContainerStepFails(View(a), env, config);
      return o;
    }
    Spread(a, o.value.items);
    ContainerStep(View(a), env, config);
    return o;
  }

  /** A container that cannot be read fails its step with the same error. */
  lemma ContainerStepFails(n: Node, env: Env, config: Config)
    requires n.kind.Container? && ContainerSpec(n.kind.path, n.meta, env).Err?
    ensures Step(n, env, config) == Err(ContainerSpec(n.kind.path, n.meta, env).error)
  {
  }

  /** A container's step is its frames with its metadata propagated. */
  lemma ContainerStep(n: Node, env: Env, config: Config)
    requires n.kind.Container? && ContainerSpec(n.kind.path, n.meta, env).Ok?
    ensures Step(n, env, config) == Ok(Several(Propagated(ContainerSpec(n.kind.path, n.meta, env).value, n.meta)))
  {
  }

  /** `PDFAsset.convert`: the pages, then propagation. */
  method ConvertPdf(a: Asset, env: Env, config: Config) returns (r: Result<Outcome>)
    requires a.kind.Pdf?
    ensures r.Err? ==> Step(View(a), env, config) == Err(r.error)
    ensures r.Ok? ==> (forall x :: x in Targets(r.value) ==> fresh(x))
                      && Step(View(a), env, config) == Ok(OutcomeView(r.value))
  {
    var o := PdfImpl(a, env, config);
    r := PropagatePdf(a, o, env, config);
  }

  /** The wrapper's propagation after a PDF's `_convert_impl`. */
  method PropagatePdf(a: Asset, o: Result<Outcome>, env: Env, config: Config) returns (r: Result<Outcome>)
    requires a.kind.Pdf?
    requires o.Err? ==> PdfSpec(a.kind.path, a.metadata, env, config) == Err(o.error)
    requires o.Ok? ==> o.value.Many? && (forall i :: 0 <= i < |o.value.items| ==> o.value.items[i] != a)
                       && PdfSpec(a.kind.path, a.metadata, env, config) == Ok(Views(o.value.items))
    modifies if o.Ok? then Targets(o.value) else {}
    ensures r == o
    ensures r.Err? ==> Step(View(a), env, config) == Err(r.error)
    ensures r.Ok? ==> Step(View(a), env, config) == Ok(OutcomeView(r.value))
  {
    if o.Err? {
      PdfStepFails(View(a), env, config);
      return o;
    }
    Spread(a, o.value.items);
    PdfStep(View(a), env, config);
    return o;
  }

  /** A PDF's step is its pages with its metadata propagated. */
  lemma PdfStep(n: Node, env: Env, config: Config)
    requires n.kind.Pdf? && PdfSpec(n.kind.path, n.meta, env, config).Ok?
    ensures Step(n, env, config) == Ok(Several(Propagated(PdfSpec(n.kind.path, n.meta, env, config).value, n.meta)))
  {
  }

  /** A PDF that cannot be rendered fails its step with the same error. */
  lemma PdfStepFails(n: Node, env: Env, config: Config)
    requires n.kind.Pdf? && PdfSpec(n.kind.path, n.meta, env, config).Err?
    ensures Step(n, env, config) == Err(PdfSpec(n.kind.path, n.meta, env, config).error)
  {
  }

  /** The wrapper's loop over a list result. */
  method Spread(source: Asset, items: seq<Asset>)
    requires forall i :: 0 <= i < |items| ==> items[i] != source
    modifies set i | 0 <= i < |items| :: items[i]
    ensures Views(items) == Propagated(old(Views(items)), source.metadata)
    ensures source.metadata == old(source.metadata)
  {
    ghost var before := Views(items);
    PropagateResult(source, Many(items));
    PropagatedView(items, before, source.metadata);
  }

  /** After the wrapper's loop the items show the propagated nodes. */
  lemma PropagatedView(items: seq<Asset>, before: seq<Node>, meta: Meta)
    requires |before| == |items|
    requires forall i :: 0 <= i < |items| ==> before[i].kind == items[i].kind
    requires forall i :: 0 <= i < |items| ==> items[i].metadata == Update(before[i].meta, meta)
    ensures Views(items) == Propagated(before, meta)
  {
  }

  // ---- what a step promises ----

  /** An image's frame carries the image's metadata unchanged, so a
      `page_spec` or a `toc` reaches the frame. */
  lemma ImageCarriesMetadata(n: Node, env: Env, config: Config)
    requires n.kind.Picture? && Step(n, env, config).Ok?
    ensures Step(n, env, config).value.Single?
    ensures Step(n, env, config).value.node.meta == n.meta
    ensures Step(n, env, config).value.node.kind == Frame(env.encode(n.kind.image).value.0, env.encode(n.kind.image).value.1)
  {
    assert Update(map[], n.meta) == n.meta;
  }

  /** A PDF's metadata reaches each of its pages, over the page's own
      `toc`; and from there each page's frame. */
  lemma PdfMetadataReachesFrames(n: Node, env: Env, config: Config, i: nat)
    requires n.kind.Pdf? && Step(n, env, config).Ok?
    requires i < |Step(n, env, config).value.nodes|
    requires Step(Step(n, env, config).value.nodes[i], env, config).Ok?
    ensures var page := Step(n, env, config).value.nodes[i];
            var frame := Step(page, env, config).value.node;
            && page.kind.Picture? && frame.kind.Frame?
            && (forall k :: k in n.meta ==> k in frame.meta && frame.meta[k] == n.meta[k])
  {
    var page := Step(n, env, config).value.nodes[i];
    assert page.kind.Picture?;
    ImageCarriesMetadata(page, env, config);
  }

  /** A container's frames are its kept frames, each with exactly the
      container's metadata. */
  lemma ContainerFramesCarryMetadata(n: Node, env: Env, config: Config)
    requires n.kind.Container? && Step(n, env, config).Ok?
    ensures var nodes := Step(n, env, config).value.nodes;
            forall i :: 0 <= i < |nodes| ==> nodes[i].kind.Frame? && nodes[i].meta == n.meta
  {
    var spec := ContainerSpec(n.kind.path, n.meta, env);
    assert spec.Ok? && Step(n, env, config).value.nodes == Propagated(spec.value, n.meta);
    assert Update(map[], n.meta) == n.meta;
  }
}
