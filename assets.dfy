/** The asset base: every asset carries a metadata dictionary that
    `set_metadata` and `propagate_metadata` update in place, and the generic
    `convert` wrapper copies the source's metadata onto what the conversion
    produced. Asset kinds form a closed family. */
module Assets {
  import opened Results
  import opened Bytes

  /** A table-of-contents entry of a PDF. */
  datatype TocEntry = TocEntry(level: int, title: string, page: int)

  /** A metadata value: a string (`page_spec`), a TOC list (`toc`) or a
      number. */
  datatype Value = Str(s: string) | TocList(entries: seq<TocEntry>) | Num(n: int)

  /** Python truthiness of a metadata value. */
  predicate Truthy(v: Value) {
    match v
    case Str(s) => s != []
    case TocList(es) => es != []
    case Num(n) => n != 0
  }

  /** A PIL image, identified by where it came from. */
  datatype Image = Opened(path: string) | Rendered(path: string, page: int)

  /** The asset classes of the pipeline. */
  datatype Kind =
    | Pdf(path: string)                          // PDFAsset
    | Picture(image: Image)                      // ImageAsset
    | Container(path: string)                    // XTContainerAsset
    | FrameFile(path: string, format: string)    // FileXTFrameAsset
    | Frame(data: seq<byte>, format: string)     // XTFrameAsset
    | Memory(data: seq<byte>)                    // MemoryAsset

  /** How many conversion steps at most separate a kind from a frame. */
  function Rank(k: Kind): nat {
    match k
    case Pdf(_) => 3
    case Picture(_) => 2
    case Container(_) => 2
    case FrameFile(_, _) => 1
    case Frame(_, _) => 0
    case Memory(_) => 0
  }

  type Meta = map<string, Value>

  /** `get_metadata('page_spec')` as the conversions use it: a non-empty
      string selects pages, a missing or falsy value selects none, and any
      other truthy value fails where `parse_page_range` splits it. */
  function PageSpec(meta: Meta): (r: Result<Option<string>>)
    ensures r.Ok? && r.value.Some? <==> "page_spec" in meta && meta["page_spec"].Str? && meta["page_spec"].s != []
    ensures r.Ok? && r.value.Some? ==> r.value.value == meta["page_spec"].s
    ensures r.Err? <==> "page_spec" in meta && !meta["page_spec"].Str? && Truthy(meta["page_spec"])
    ensures r.Err? ==> r.error == AttributeError
  {
    if "page_spec" !in meta then Ok(None)
    else match meta["page_spec"]
      case Str(s) => if s == [] then Ok(None) else Ok(Some(s))
      case v => if Truthy(v) then Err(AttributeError) else Ok(None)
  }

  /** The `output` section of the configuration; a missing key takes the
      default given where it is read. */
  datatype OutputConfig = OutputConfig(
    width: Option<int>,
    height: Option<int>,
    title: Option<seq<byte>>,
    author: Option<seq<byte>>,
    publisher: Option<seq<byte>>,
    language: Option<seq<byte>>,
    direction: Option<string>)

  /** The configuration keys the modelled code reads. */
  datatype Config = Config(extractToc: Option<bool>, output: OutputConfig)

  /** What the conversions take from outside the model: file contents,
      whether PIL's `Image.open` can read a picture file, the PDF library's
      page count and table of contents, and the image encoder
      (`ImageAsset._convert_impl`: PIL resizing and quantising, then a frame
      writer) giving the frame bytes and format, or failing. */
  datatype Env = Env(
    files: string -> seq<byte>,
    opens: string -> bool,
    pageCount: string -> nat,
    toc: string -> seq<TocEntry>,
    encode: Image -> Result<(seq<byte>, string)>)

  /** `target.update(source)`: the source's entries win, the target's other
      entries stay. */
  function Update(target: Meta, source: Meta): (r: Meta)
    ensures r.Keys == target.Keys + source.Keys
    ensures forall k :: k in source ==> r[k] == source[k]
    ensures forall k :: k in target && k !in source ==> r[k] == target[k]
  {
    target + source
  }

  /** Updating with the same source twice is updating once, and a map
      updated with itself is unchanged. */
  lemma UpdateIdempotent(target: Meta, source: Meta)
    ensures Update(Update(target, source), source) == Update(target, source)
    ensures Update(source, source) == source
  {
    assert Update(Update(target, source), source).Keys == Update(target, source).Keys;
  }

  /** Propagation composes along a chain: after `a` propagates to `b` and
      `b` to `c`, `c` holds every entry of `a`, then the entries of `b` that
      `a` lacks, then its own. */
  lemma ChainedPropagation(a: Meta, b: Meta, c: Meta)
    ensures var c' := Update(c, Update(b, a));
            && (forall k :: k in a ==> c'[k] == a[k])
            && (forall k :: k in b && k !in a ==> c'[k] == b[k])
            && (forall k :: k in c && k !in a && k !in b ==> c'[k] == c[k])
            && c' == Update(Update(c, b), a)
  {
    var l := Update(c, Update(b, a));
    var r := Update(Update(c, b), a);
    assert l.Keys == r.Keys;
    forall k | k in l.Keys ensures l[k] == r[k] {
    }
  }

  /** An asset: its class with the fields its constructor sets, and its
      metadata dictionary. */
  class Asset {
    const kind: Kind
    var metadata: Meta

    /** `Asset.__init__` (and the subclass constructors, which set `kind`'s
        fields): an empty metadata dictionary. */
    constructor (kind: Kind)
      ensures this.kind == kind && metadata == map[]
    {
      this.kind := kind;
      metadata := map[];
    }

    /** `set_metadata(key, value)`. */
    method SetMetadata(key: string, value: Value)
      modifies this
      ensures metadata == old(metadata)[key := value]
      ensures GetMetadata(key, None) == Some(value)
      ensures forall k :: k != key ==> GetMetadata(k, None) == old(GetMetadata(k, None))
    {
      metadata := metadata[key := value];
    }

    /** `get_metadata(key, default)`. */
    function GetMetadata(key: string, default: Option<Value>): (r: Option<Value>)
      reads this
      ensures key in metadata ==> r == Some(metadata[key])
      ensures key !in metadata ==> r == default
    {
      if key in metadata then Some(metadata[key]) else default
    }

    /** `propagate_metadata(target)`: the target's dictionary updated with
        this one's; this one is left as it was, even when it is the target. */
    method PropagateMetadata(target: Asset)
      modifies target
      ensures target.metadata == Update(old(target.metadata), old(metadata))
      ensures metadata == old(metadata)
    {
      UpdateIdempotent(target.metadata, metadata);
      target.metadata := target.metadata + metadata;
    }
  }

  /** An asset as a value: its kind and its metadata. */
  datatype Node = Node(kind: Kind, meta: Meta)

  function View(a: Asset): Node
    reads a
  {
    Node(a.kind, a.metadata)
  }

  /** What `convert` returned: the asset itself, one other asset, or a list
      of assets. */
  datatype Outcome = Same | One(asset: Asset) | Many(items: seq<Asset>)

  /** The same, as values. */
  datatype Expansion = Itself | Single(node: Node) | Several(nodes: seq<Node>)

  function Targets(o: Outcome): set<Asset> {
    match o
    case Same => {}
    case One(a) => {a}
    case Many(items) => set i | 0 <= i < |items| :: items[i]
  }

  function Views(items: seq<Asset>): (r: seq<Node>)
    reads set i | 0 <= i < |items| :: items[i]
    ensures |r| == |items|
    ensures forall i :: 0 <= i < |items| ==> r[i] == View(items[i])
  {
    seq(|items|, i reads items requires 0 <= i < |items| => View(items[i]))
  }

  function OutcomeView(o: Outcome): Expansion
    reads Targets(o)
  {
    match o
    case Same => Itself
    case One(a) => Single(View(a))
    case Many(items) => Several(Views(items))
  }

  /** The propagation half of `convert`: when the result is not the asset
      itself, every asset it holds gets the source's metadata. */
  method PropagateResult(source: Asset, o: Outcome)
    requires !o.Same?
    modifies Targets(o)
    ensures forall a :: a in Targets(o) ==> a.metadata == Update(old(a.metadata), old(source.metadata))
    ensures source.metadata == old(source.metadata)
  {
    var given := source.metadata;
    match o {
      case One(a) =>
        source.PropagateMetadata(a);
      case Many(items) =>
        for i := 0 to |items|
          invariant source.metadata == given
          invariant forall a :: a in Targets(o) ==>
                      a.metadata == if a in items[..i] then Update(old(a.metadata), given) else old(a.metadata)
        {
          var item := items[i];
          UpdateIdempotent(old(item.metadata), given);
          source.PropagateMetadata(item);
          assert items[..i + 1] == items[..i] + [item];
        }
        assert items[..|items|] == items;
    }
  }
}
