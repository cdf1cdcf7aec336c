/** `PDFAsset`: a PDF becomes one image asset per selected page, each page
    carrying the table-of-contents entries that point at it. The PDF
    library is abstract: it gives a page count and a table of contents,
    and a rendered page is named by its file and page number. */
module PdfAsset {
  import opened Results
  import opened Pages
  import opened Assets

  // ---- grouping the table of contents ----

  function Flatten(runs: seq<seq<TocEntry>>): (r: seq<TocEntry>)
  {
    if runs == [] then [] else runs[0] + Flatten(runs[1..])
  }

  /** A non-empty run of entries for one page. */
  predicate SamePage(run: seq<TocEntry>) {
    run != [] && forall i :: 0 <= i < |run| ==> run[i].page == run[0].page
  }

  /** Runs that are non-empty, each on one page, neighbours on different
      pages. */
  predicate Maximal(runs: seq<seq<TocEntry>>) {
    && (forall k :: 0 <= k < |runs| ==> SamePage(runs[k]))
    && (forall k :: 0 < k < |runs| ==> runs[k][0].page != runs[k - 1][0].page)
  }

  /** `itertools.groupby(toc, key=lambda e: e.page)`: the entries cut into
      maximal runs of consecutive entries on the same page. */
  function Runs(toc: seq<TocEntry>): (runs: seq<seq<TocEntry>>)
    ensures Flatten(runs) == toc
    ensures Maximal(runs) && (toc != [] ==> runs != [] && runs[0][0] == toc[0])
  {
    if toc == [] then []
    else
      var rest := Runs(toc[1..]);
      if rest != [] && rest[0][0].page == toc[0].page then
        var runs := [[toc[0]] + rest[0]] + rest[1..];
        assert runs[1..] == rest[1..];
        assert Flatten(rest) == rest[0] + Flatten(rest[1..]);
        assert toc == [toc[0]] + toc[1..];
        runs
      else
        var runs := [[toc[0]]] + rest;
        assert runs[1..] == rest;
        assert toc == [toc[0]] + toc[1..];
        runs
  }

  /** `toc_by_page` after the loop over the runs: each run stored under its
      page, a later run replacing an earlier one. */
  function Grouped(runs: seq<seq<TocEntry>>): (g: map<int, seq<TocEntry>>)
    requires forall k :: 0 <= k < |runs| ==> runs[k] != []
  {
    if runs == [] then map[]
    else
      var last := runs[|runs| - 1];
      Grouped(runs[..|runs| - 1])[last[0].page := last]
  }

  /** The loop that fills `toc_by_page` from the groups. */
  method GroupByPage(toc: seq<TocEntry>) returns (byPage: map<int, seq<TocEntry>>)
    ensures byPage == Grouped(Runs(toc))
  {
    var runs := Runs(toc);
    byPage := map[];
    for k := 0 to |runs|
      invariant byPage == Grouped(runs[..k])
    {
      assert runs[..k + 1][..k] == runs[..k];
      byPage := byPage[runs[k][0].page := runs[k]];
    }
    assert runs[..|runs|] == runs;
  }

  /** A page has a group exactly when some run is on it, and its group is
      the last run on it. */
  lemma {:induction false} GroupedMeaning(runs: seq<seq<TocEntry>>)
    requires forall k :: 0 <= k < |runs| ==> runs[k] != []
    ensures forall p :: p in Grouped(runs) <==> exists k :: 0 <= k < |runs| && runs[k][0].page == p
    ensures forall k :: 0 <= k < |runs| && (forall j :: k < j < |runs| ==> runs[j][0].page != runs[k][0].page)
                        ==> Grouped(runs)[runs[k][0].page] == runs[k]
  {
    if runs != [] {
      var init := runs[..|runs| - 1];
      GroupedMeaning(init);
      forall k | 0 <= k < |init| ensures init[k] == runs[k] { }
    }
  }

  /** An entry is in the flattened runs exactly when it is in one run. */
  lemma {:induction false} FlattenMember(runs: seq<seq<TocEntry>>, e: TocEntry)
    ensures e in Flatten(runs) <==> exists k :: 0 <= k < |runs| && e in runs[k]
  {
    if runs != [] {
      FlattenMember(runs[1..], e);
      if e in Flatten(runs[1..]) {
        var k :| 0 <= k < |runs[1..]| && e in runs[1..][k];
        assert e in runs[k + 1];
      }
      if e !in runs[0] && exists k :: 0 <= k < |runs| && e in runs[k] {
        var k :| 0 <= k < |runs| && e in runs[k];
        assert e in runs[1..][k - 1];
      }
    }
  }

  /** The table of contents grouped by page: a page has a group exactly
      when some entry points at it, and the group is a non-empty list of
      entries all on that page. */
  lemma TocGroups(toc: seq<TocEntry>)
    ensures var g := Grouped(Runs(toc));
            && (forall p :: p in g <==> exists e :: e in toc && e.page == p)
            && (forall p :: p in g ==> g[p] != [] && forall i :: 0 <= i < |g[p]| ==> g[p][i].page == p)
  {
    var runs: seq<seq<TocEntry>> := Runs(toc);
    var g: map<int, seq<TocEntry>> := Grouped(runs);
    GroupedMeaning(runs);
    forall p: int ensures p in g <==> exists e :: e in toc && e.page == p {
      if p in g {
        var k :| 0 <= k < |runs| && runs[k][0].page == p;
        FlattenMember(runs, runs[k][0]);
      }
      if exists e :: e in toc && e.page == p {
        var e :| e in toc && e.page == p;
        FlattenMember(runs, e);
        var k :| 0 <= k < |runs| && e in runs[k];
        var i :| 0 <= i < |runs[k]| && runs[k][i] == e;
        assert runs[k][0].page == p;
      }
    }
    forall p: int | p in g ensures g[p] != [] && forall i :: 0 <= i < |g[p]| ==> g[p][i].page == p {
      var k := LastRun(runs, p);
      assert g[p] == runs[k];
    }
  }

  /** The group of a page is the last maximal run of entries on it: a
      slice of the table of contents that starts it or follows an entry on
      another page, and after which no entry is on that page. */
  lemma LastGroup(toc: seq<TocEntry>, p: int) returns (a: nat)
    requires p in Grouped(Runs(toc))
    ensures var run := Grouped(Runs(toc))[p];
            && a + |run| <= |toc| && run == toc[a..a + |run|]
            && (a > 0 ==> toc[a - 1].page != p)
            && (forall i :: a + |run| <= i < |toc| ==> toc[i].page != p)
  {
    var runs := Runs(toc);
    GroupedMeaning(runs);
    var k := LastRun(runs, p);
    var run := runs[k];
    assert Grouped(runs)[p] == run;
    FlattenSplit(runs, k);
    var front := Flatten(runs[..k]);
    var back := Flatten(runs[k + 1..]);
    assert toc == front + run + back;
    a := |front|;
    assert toc[a..a + |run|] == run;
    if k > 0 {
      RunBefore(runs, k);
      assert toc[a - 1] == front[a - 1];
    } else {
      assert runs[..k] == [];
    }
    forall i | a + |run| <= i < |toc| ensures toc[i].page != p {
      assert toc[i] == back[i - a - |run|];
      RunAfter(runs, k, back[i - a - |run|]);
    }
  }

  /** The flattened runs are the runs before `k`, run `k`, and the runs
      after it. */
  lemma {:induction false} FlattenSplit(runs: seq<seq<TocEntry>>, k: nat)
    requires k < |runs|
    ensures Flatten(runs) == Flatten(runs[..k]) + runs[k] + Flatten(runs[k + 1..])
  {
    if k == 0 {
      assert runs[..0] == [];
    } else {
      FlattenSplit(runs[1..], k - 1);
      assert runs[1..][..k - 1] == runs[..k][1..];
      assert runs[1..][k..] == runs[k + 1..];
      assert runs[1..][k - 1] == runs[k];
    }
  }

  /** Before a run that is not the first, the last entry is on the page of
      the previous run, which differs. */
  lemma RunBefore(runs: seq<seq<TocEntry>>, k: nat)
    requires Maximal(runs) && 0 < k < |runs|
    ensures Flatten(runs[..k]) != []
    ensures Flatten(runs[..k])[|Flatten(runs[..k])| - 1].page != runs[k][0].page
  {
    var front := runs[..k];
    FlattenSplit(front, k - 1);
    assert front[..k - 1] == runs[..k - 1];
    assert front[k..] == [];
    var last := runs[k - 1];
    assert Flatten(front) == Flatten(runs[..k - 1]) + last;
    assert SamePage(last);
  }

  /** An entry after run `k` lies in a later run, so it is on another page
      when no later run is on run `k`'s page. */
  lemma RunAfter(runs: seq<seq<TocEntry>>, k: nat, e: TocEntry)
    requires Maximal(runs) && k < |runs| && e in Flatten(runs[k + 1..])
    ensures exists j :: k < j < |runs| && e.page == runs[j][0].page
  {
    var rest := runs[k + 1..];
    FlattenMember(rest, e);
    var j :| 0 <= j < |rest| && e in rest[j];
    assert rest[j] == runs[k + 1 + j];
    assert SamePage(runs[k + 1 + j]);
    var m :| 0 <= m < |runs[k + 1 + j]| && runs[k + 1 + j][m] == e;
  }

  /** The index of the last run on page `p`. */
  lemma {:induction false} LastRun(runs: seq<seq<TocEntry>>, p: int) returns (k: nat)
    requires forall j :: 0 <= j < |runs| ==> runs[j] != []
    requires exists j :: 0 <= j < |runs| && runs[j][0].page == p
    ensures k < |runs| && runs[k][0].page == p
    ensures forall j :: k < j < |runs| ==> runs[j][0].page != p
  {
    if runs[|runs| - 1][0].page == p {
      k := |runs| - 1;
    } else {
      var init: seq<seq<TocEntry>> := runs[..|runs| - 1];
      var j: int :| 0 <= j < |runs| && runs[j][0].page == p;
      assert init[j][0].page == p;
      k := LastRun(init, p);
      assert init[k] == runs[k];
    }
  }

  // ---- the pages and their assets ----

  /** `toc_by_page`: filled only when extraction is on (the default) and
      the PDF has a table of contents. */
  function TocByPage(path: string, env: Env, config: Config): (g: map<int, seq<TocEntry>>)
  {
    if config.extractToc != Some(false) && env.toc(path) != [] then Grouped(Runs(env.toc(path)))
    else map[]
  }

  /** The pages to render: the ones a page spec selects, or all of them. */
  function SelectedPages(meta: Meta, count: nat): (r: Result<seq<int>>)
    ensures PageSpec(meta) == Ok(None) ==> r == Ok(Range(1, count + 1))
    ensures (PageSpec(meta).Ok? && PageSpec(meta).value.Some?) ==> r == PageRange(PageSpec(meta).value.value, count)
    ensures PageSpec(meta).Err? ==> r == Err(PageSpec(meta).error)
  {
    var spec :- PageSpec(meta);
    if spec.Some? then PageRange(spec.value, count) else Ok(Range(1, count + 1))
  }

  /** The metadata a new page asset gets: its page's group under `toc`
      when the group is non-empty, nothing otherwise. */
  function PageMeta(groups: map<int, seq<TocEntry>>, page: int): (m: Meta)
    ensures "toc" in m <==> page in groups && groups[page] != []
    ensures "toc" in m ==> m == map["toc" := TocList(groups[page])]
    ensures "toc" !in m ==> m == map[]
  {
    if page in groups && groups[page] != [] then map["toc" := TocList(groups[page])] else map[]
  }

  function PageNodes(path: string, pages: seq<int>, groups: map<int, seq<TocEntry>>): (r: seq<Node>)
    ensures |r| == |pages|
    ensures forall i :: 0 <= i < |pages| ==> r[i] == Node(Picture(Rendered(path, pages[i])), PageMeta(groups, pages[i]))
  {
    seq(|pages|, i requires 0 <= i < |pages| => Node(Picture(Rendered(path, pages[i])), PageMeta(groups, pages[i])))
  }

  /** What `_convert_impl` produces before the wrapper propagates metadata. */
  function PdfSpec(path: string, meta: Meta, env: Env, config: Config): (r: Result<seq<Node>>)
  {
    var pages :- SelectedPages(meta, env.pageCount(path));
    Ok(PageNodes(path, pages, TocByPage(path, env, config)))
  }

  /** `PDFAsset._convert_impl`. */
  method PdfImpl(a: Asset, env: Env, config: Config) returns (r: Result<Outcome>)
    requires a.kind.Pdf?
    ensures r.Err? ==> PdfSpec(a.kind.path, a.metadata, env, config) == Err(r.error)
    ensures r.Ok? ==> r.value.Many? && (forall i :: 0 <= i < |r.value.items| ==> fresh(r.value.items[i]))
                      && PdfSpec(a.kind.path, a.metadata, env, config) == Ok(Views(r.value.items))
  {
    var path := a.kind.path;
    var count := env.pageCount(path);
    var groups: map<int, seq<TocEntry>> := map[];
    if config.extractToc != Some(false) {
      var toc := env.toc(path);
      if toc != [] {
        groups := GroupByPage(toc);
      }
    }
    var spec :- PageSpec(a.metadata);
    var pages: seq<int>;
    if spec.Some? {
      pages :- ParsePageRange(spec.value, count);
    } else {
      pages := Range(1, count + 1);
    }
    var assets := PageAssets(path, pages, groups);
    return Ok(Many(assets));
  }

  /** The rendering loop: one new image asset per page, with the page's
      TOC group set on it when there is one. */
  method PageAssets(path: string, pages: seq<int>, groups: map<int, seq<TocEntry>>) returns (assets: seq<Asset>)
    ensures forall i :: 0 <= i < |assets| ==> fresh(assets[i])
    ensures Views(assets) == PageNodes(path, pages, groups)
  {
    assets := [];
    for i := 0 to |pages|
      invariant |assets| == i
      invariant forall k :: 0 <= k < i ==> fresh(assets[k])
      invariant forall k :: 0 <= k < i ==> View(assets[k]) == Node(Picture(Rendered(path, pages[k])), PageMeta(groups, pages[k]))
    {
      var page := pages[i];
      var image := new Asset(Picture(Rendered(path, page)));
      if page in groups && groups[page] != [] {
        image.SetMetadata("toc", TocList(groups[page]));
      }
      assets := assets + [image];
    }
  }

  // ---- what the conversion promises ----

  /** Every page rendered is between 1 and the page count, so the
      renderer's out-of-range error cannot arise, and no page is rendered
      twice. */
  lemma PdfPagesInRange(path: string, meta: Meta, env: Env, config: Config)
    requires PdfSpec(path, meta, env, config).Ok?
    ensures var nodes := PdfSpec(path, meta, env, config).value;
            forall i :: 0 <= i < |nodes| ==> nodes[i].kind.Picture? && nodes[i].kind.image.Rendered?
                                             && nodes[i].kind.image.path == path
                                             && 1 <= nodes[i].kind.image.page <= env.pageCount(path)
  {
    var count := env.pageCount(path);
    var spec := PageSpec(meta).value;
    if spec.Some? {
      PageRangeBounds(spec.value, count);
    }
  }

  /** Without a page spec every page is rendered once, in order. */
  lemma PdfAllPages(path: string, meta: Meta, env: Env, config: Config)
    requires PageSpec(meta) == Ok(None)
    ensures PdfSpec(path, meta, env, config).Ok?
    ensures var nodes := PdfSpec(path, meta, env, config).value;
            |nodes| == env.pageCount(path)
            && forall i :: 0 <= i < |nodes| ==> nodes[i].kind == Picture(Rendered(path, i + 1))
  {
  }

  /** A page asset carries `toc` exactly when extraction is on and some
      entry points at its page; what it carries is entries of that page
      only. */
  lemma PdfTocAttached(path: string, meta: Meta, env: Env, config: Config, i: nat)
    requires PdfSpec(path, meta, env, config).Ok?
    requires i < |PdfSpec(path, meta, env, config).value|
    ensures var n := PdfSpec(path, meta, env, config).value[i];
            var page := n.kind.image.page;
            && ("toc" in n.meta <==>
                  config.extractToc != Some(false) && exists e :: e in env.toc(path) && e.page == page)
            && ("toc" in n.meta ==>
                  && n.meta["toc"].TocList? && n.meta["toc"].entries != []
                  && forall j :: 0 <= j < |n.meta["toc"].entries| ==> n.meta["toc"].entries[j].page == page)
  {
    PdfPagesInRange(path, meta, env, config);
    var pages := SelectedPages(meta, env.pageCount(path)).value;
    var groups := TocByPage(path, env, config);
    var toc := env.toc(path);
    var n := PdfSpec(path, meta, env, config).value[i];
    assert n == Node(Picture(Rendered(path, pages[i])), PageMeta(groups, pages[i]));
    TocGroups(toc);
    if config.extractToc != Some(false) && toc != [] {
      assert groups == Grouped(Runs(toc));
    } else {
      assert groups == map[];
    }
  }
}
