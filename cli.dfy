/** The `convert` command: which asset each source becomes, the output
    mode, and the worklist that converts every source down to frames. */
module Cli {
  import opened Results
  import opened Text
  import opened Paths
  import opened Assets
  import opened FrameAssets
  import opened Dispatch

  // ---- sources and output ----

  /** `create_asset`: the asset for a source path, by its lower-cased
      suffix, or none for an unknown type. */
  function AssetKind(path: string): (k: Option<Kind>)
  {
    KindFor(Lower(Suffix(path)), path)
  }

  /** The dispatch of `create_asset` on the lower-cased suffix `ext`. */
  function KindFor(ext: string, path: string): (k: Option<Kind>)
    ensures k.Some? <==> ext in [".pdf", ".png", ".jpg", ".jpeg", ".xtc", ".xth", ".xtg"]
    ensures ext == ".pdf" ==> k == Some(Pdf(path))
    ensures ext in [".png", ".jpg", ".jpeg"] ==> k == Some(Picture(Opened(path)))
    ensures ext == ".xtc" ==> k == Some(Container(path))
    ensures ext in [".xth", ".xtg"] ==> k == Some(NewFrameFile(path))
  {
    if ext == ".pdf" then Some(Pdf(path))
    else if ext in [".png", ".jpg", ".jpeg"] then Some(Picture(Opened(path)))
    else if ext == ".xtc" then Some(Container(path))
    else if ext in [".xth", ".xtg"] then Some(NewFrameFile(path))
    else None
  }

  /** A frame file is dispatched by `pathlib`'s suffix but takes its format
      from `os.path.splitext`; for a name that does not start with a dot
      the two agree, so the format is the suffix without its dot. */
  lemma FrameFileFormatIsSuffix(path: string)
    requires AssetKind(path).Some? && AssetKind(path).value.FrameFile?
    requires Name(path)[0] != '.'
    ensures AssetKind(path).value.format == Lower(Suffix(path))[1..]
  {
    var ext := Lower(Suffix(path));
    assert AssetKind(path) == KindFor(ext, path);
    assert ext == ".xth" || ext == ".xtg";
    var n := Name(path);
    assert Stem(path) + Suffix(path) == n;
    SuffixIsSplitExt(path);
  }

  datatype Mode = XtcFile | Debug | SinglePages

  /** The output mode, from the output path's lower-cased suffix. */
  function OutputMode(output: string): (r: Result<Mode>)
  {
    ModeFor(Lower(Suffix(output)))
  }

  /** The output-mode choice on the lower-cased suffix `ext`. */
  function ModeFor(ext: string): (r: Result<Mode>)
    ensures r.Err? <==> ext !in [".xtc", ".xth", ".xtg", ".png", ".pdf"]
    ensures r.Err? ==> r.error == BadOutputExtension
    ensures r == Ok(XtcFile) <==> ext == ".xtc"
    ensures r == Ok(Debug) <==> ext in [".png", ".pdf"]
    ensures r == Ok(SinglePages) <==> ext in [".xth", ".xtg"]
  {
    if ext !in [".xtc", ".xth", ".xtg", ".png", ".pdf"] then Err(BadOutputExtension)
    else if ext == ".xtc" then Ok(XtcFile)
    else if ext in [".png", ".pdf"] then Ok(Debug)
    else Ok(SinglePages)
  }

  /** The assets of the recognised sources, in source order. */
  function SourceNodes(sources: seq<string>): (r: seq<Node>)
    ensures forall i :: 0 <= i < |r| ==> r[i].meta == map[]
  {
    if sources == [] then []
    else
      var head := AssetKind(sources[0]);
      (if head.Some? then [Node(head.value, map[])] else []) + SourceNodes(sources[1..])
  }

  /** A picture source that `Image.open` cannot read: `create_asset` raises
      for it while the stack is being seeded. */
  predicate Unreadable(env: Env, path: string) {
    var kind := AssetKind(path);
    kind.Some? && kind.value.Picture? && !env.opens(path)
  }

  /** What the command converts to frames: the recognised sources taken
      depth first, unless seeding already failed on an unreadable picture. */
  function SourceFrames(sources: seq<string>, env: Env, config: Config): (r: Result<seq<Node>>)
  {
    if exists i :: 0 <= i < |sources| && Unreadable(env, sources[i]) then Err(UnreadableImage)
    else ProduceAll(SourceNodes(sources), Converting(env, config))
  }

  /** An unreadable picture fails the run before anything is converted, so
      no later conversion failure is reported instead. */
  lemma OpenFailsFirst(sources: seq<string>, env: Env, config: Config, i: nat)
    requires i < |sources| && Unreadable(env, sources[i])
    ensures SourceFrames(sources, env, config) == Err(UnreadableImage)
  {
  }

  /** Without unreadable pictures the run converts every recognised source. */
  lemma ReadableSources(sources: seq<string>, env: Env, config: Config)
    requires forall i :: 0 <= i < |sources| ==> !Unreadable(env, sources[i])
    ensures SourceFrames(sources, env, config) == ProduceAll(SourceNodes(sources), Converting(env, config))
  {
  }

  // ---- what the worklist computes ----

  /** One more than the highest rank among the nodes (0 for none). */
  function MaxRank(ns: seq<Node>): (m: nat)
    ensures forall i :: 0 <= i < |ns| ==> Rank(ns[i].kind) < m
  {
    if ns == [] then 0
    else
      var rest := MaxRank(ns[1..]);
      assert forall i :: 1 <= i < |ns| ==> ns[i] == ns[1..][i - 1];
      if Rank(ns[0].kind) + 1 > rest then Rank(ns[0].kind) + 1 else rest
  }

  lemma {:induction false} MaxRankBound(ns: seq<Node>, bound: nat)
    requires forall i :: 0 <= i < |ns| ==> Rank(ns[i].kind) < bound
    ensures MaxRank(ns) <= bound
  {
    if ns != [] {
      MaxRankBound(ns[1..], bound);
    }
  }

  /** A conversion step as a value: what `convert` yields for an asset. */
  type Converter = Node -> Result<Expansion>

  /** Every asset an expansion holds is closer to a frame than `n`. */
  predicate Lowers(e: Expansion, n: Node) {
    match e
    case Itself => true
    case Single(m) => Rank(m.kind) < Rank(n.kind)
    case Several(ms) => forall i :: 0 <= i < |ms| ==> Rank(ms[i].kind) < Rank(n.kind)
  }

  /** A step that yields only assets closer to a frame. */
  ghost predicate Ranked(step: Converter) {
    forall n :: step(n).Ok? ==> Lowers(step(n).value, n)
  }

  /** The step of the command: `convert` of each asset class. */
  function Converting(env: Env, config: Config): (step: Converter)
    ensures Ranked(step)
    ensures forall n :: step(n) == Step(n, env, config)
  {
    n => Step(n, env, config)
  }

  /** The frames one node finally yields, left to right, or the first
      failure: a final frame is itself, another final asset yields nothing,
      a single result is followed further unless it is a frame, and a list
      yields the frames of its items in order. */
  function Produce(n: Node, step: Converter): (r: Result<seq<Node>>)
    requires Ranked(step)
    ensures r.Ok? ==> forall i :: 0 <= i < |r.value| ==> r.value[i].kind.Frame?
    decreases Rank(n.kind), 1, 0
  {
    var e :- step(n);
    match e
    case Itself => if n.kind.Frame? then Ok([n]) else Ok([])
    case Single(m) => if m.kind.Frame? then Ok([m]) else Produce(m, step)
    case Several(ms) =>
      MaxRankBound(ms, Rank(n.kind));
      ProduceAll(ms, step)
  }

  /** The frames of each node in turn. */
  function ProduceAll(ns: seq<Node>, step: Converter): (r: Result<seq<Node>>)
    requires Ranked(step)
    ensures r.Ok? ==> forall i :: 0 <= i < |r.value| ==> r.value[i].kind.Frame?
    decreases MaxRank(ns), 0, |ns|
  {
    if ns == [] then Ok([])
    else
      MaxRankBound(ns[1..], MaxRank(ns));
      Cat(Produce(ns[0], step), ProduceAll(ns[1..], step))
  }

  /** Two results in sequence: the first failure, or both outputs. */
  function Cat(x: Result<seq<Node>>, y: Result<seq<Node>>): (r: Result<seq<Node>>)
    ensures r.Ok? <==> x.Ok? && y.Ok?
    ensures r.Ok? ==> r.value == x.value + y.value
    ensures x.Err? ==> r == x
    ensures x.Ok? && y.Err? ==> r == y
  {
    if x.Err? then x else if y.Err? then y else Ok(x.value + y.value)
  }

  lemma CatAssoc(x: Result<seq<Node>>, y: Result<seq<Node>>, z: Result<seq<Node>>)
    ensures Cat(x, Cat(y, z)) == Cat(Cat(x, y), z)
  {
    if x.Ok? && y.Ok? && z.Ok? {
      assert x.value + (y.value + z.value) == (x.value + y.value) + z.value;
    }
  }

  lemma CatEmpty(y: Result<seq<Node>>)
    ensures Cat(Ok([]), y) == y
  {
    if y.Ok? {
      assert [] + y.value == y.value;
    }
  }

  /** Frames already output, then what is still to come. */
  function Then(done: seq<Node>, rest: Result<seq<Node>>): (r: Result<seq<Node>>)
  {
    Cat(Ok(done), rest)
  }

  lemma ProduceAllCons(v: Node, rest: seq<Node>, step: Converter)
    requires Ranked(step)
    ensures ProduceAll([v] + rest, step) == Cat(Produce(v, step), ProduceAll(rest, step))
  {
    assert ([v] + rest)[0] == v;
    assert ([v] + rest)[1..] == rest;
  }

  /** The frames of two lists of nodes are the frames of each. */
  lemma {:induction false} ProduceAllAppend(a: seq<Node>, b: seq<Node>, step: Converter)
    requires Ranked(step)
    ensures ProduceAll(a + b, step) == Cat(ProduceAll(a, step), ProduceAll(b, step))
  {
    if a == [] {
      assert a + b == b;
      CatEmpty(ProduceAll(b, step));
    } else {
      var tail := a[1..];
      ProduceAllAppend(tail, b, step);
      assert a + b == [a[0]] + (tail + b);
      assert a == [a[0]] + tail;
      ProduceAllCons(a[0], tail + b, step);
      ProduceAllCons(a[0], tail, step);
      CatAssoc(Produce(a[0], step), ProduceAll(tail, step), ProduceAll(b, step));
    }
  }

  // ---- one step of the loop, on values ----

  /** A list result: its items go first. */
  lemma PopMany(done: seq<Node>, v: Node, rest: seq<Node>, items: seq<Node>, step: Converter)
    requires Ranked(step) && step(v) == Ok(Several(items))
    ensures Then(done, ProduceAll([v] + rest, step)) == Then(done, ProduceAll(items + rest, step))
  {
    ProduceAllCons(v, rest, step);
    ProduceAllAppend(items, rest, step);
    CatAssoc(Ok(done), ProduceAll(items, step), ProduceAll(rest, step));
  }

  /** A frame result: it joins the output. */
  lemma PopFrame(done: seq<Node>, v: Node, rest: seq<Node>, m: Node, step: Converter)
    requires Ranked(step) && step(v) == Ok(Single(m)) && m.kind.Frame?
    ensures Then(done, ProduceAll([v] + rest, step)) == Then(done + [m], ProduceAll(rest, step))
  {
    ProduceAllCons(v, rest, step);
    assert Produce(v, step) == Ok([m]);
    CatAssoc(Ok(done), Ok([m]), ProduceAll(rest, step));
  }

  /** Another single result: it is converted next. */
  lemma PopOther(done: seq<Node>, v: Node, rest: seq<Node>, m: Node, step: Converter)
    requires Ranked(step) && step(v) == Ok(Single(m)) && !m.kind.Frame?
    ensures Then(done, ProduceAll([v] + rest, step)) == Then(done, ProduceAll([m] + rest, step))
  {
    ProduceAllCons(v, rest, step);
    ProduceAllCons(m, rest, step);
    assert Produce(v, step) == Produce(m, step);
  }

  /** The asset itself: kept when it is a frame, dropped otherwise. */
  lemma PopSame(done: seq<Node>, v: Node, rest: seq<Node>, step: Converter)
    requires Ranked(step) && step(v) == Ok(Itself)
    ensures Then(done, ProduceAll([v] + rest, step))
         == Then(done + (if v.kind.Frame? then [v] else []), ProduceAll(rest, step))
  {
    ProduceAllCons(v, rest, step);
    var own := if v.kind.Frame? then [v] else [];
    assert Produce(v, step) == Ok(own);
    CatAssoc(Ok(done), Ok(own), ProduceAll(rest, step));
  }

  /** A failing conversion ends the whole run with its error. */
  lemma PopFails(done: seq<Node>, v: Node, rest: seq<Node>, step: Converter)
    requires Ranked(step) && step(v).Err?
    ensures Then(done, ProduceAll([v] + rest, step)) == Err(step(v).error)
  {
    ProduceAllCons(v, rest, step);
  }

  // ---- the stack ----

  function Reverse<T>(s: seq<T>): (r: seq<T>)
    ensures |r| == |s|
    ensures forall i :: 0 <= i < |s| ==> r[i] == s[|s| - 1 - i]
  {
    seq(|s|, i requires 0 <= i < |s| => s[|s| - 1 - i])
  }

  lemma ReverseAppend<T>(a: seq<T>, b: seq<T>)
    ensures Reverse(a + b) == Reverse(b) + Reverse(a)
  {
  }

  lemma ReverseReverse<T>(s: seq<T>)
    ensures Reverse(Reverse(s)) == s
  {
  }

  lemma ViewsAppend(a: seq<Asset>, b: seq<Asset>)
    ensures Views(a + b) == Views(a) + Views(b)
  {
  }

  /** Stack entries of rank `k` (the stack's measure of work left). */
  function CountRank(s: seq<Asset>, k: nat): nat
  {
    if s == [] then 0
    else CountRank(s[..|s| - 1], k) + (if Rank(s[|s| - 1].kind) == k then 1 else 0)
  }

  lemma {:induction false} CountAppend(s: seq<Asset>, t: seq<Asset>, k: nat)
    ensures CountRank(s + t, k) == CountRank(s, k) + CountRank(t, k)
    decreases |t|
  {
    if t != [] {
      var init := t[..|t| - 1];
      CountAppend(s, init, k);
      assert (s + t)[..|s + t| - 1] == s + init;
    } else {
      assert s + t == s;
    }
  }

  lemma {:induction false} CountNone(t: seq<Asset>, k: nat)
    requires forall i :: 0 <= i < |t| ==> Rank(t[i].kind) < k
    ensures CountRank(t, k) == 0
  {
    if t != [] {
      CountNone(t[..|t| - 1], k);
    }
  }

  /** Replacing the top of the stack by lower-ranked assets removes one
      asset of the top's rank and adds none of that rank or above. */
  lemma Shrinks(stack: seq<Asset>, top: Asset, pushed: seq<Asset>, k: nat)
    requires forall i :: 0 <= i < |pushed| ==> Rank(pushed[i].kind) < Rank(top.kind)
    requires k >= Rank(top.kind)
    ensures CountRank(stack + pushed, k) + (if k == Rank(top.kind) then 1 else 0) == CountRank(stack + [top], k)
  {
    CountAppend(stack, pushed, k);
    CountAppend(stack, [top], k);
    CountNone(pushed, k);
    assert [top][..0] == [];
  }

  /** The seeding loop: sources in reverse order, unknown ones skipped, so
      that the first source is on top. Creating a picture's asset opens the
      file, and the first unreadable one met (the last in source order)
      stops the command. */
  method Seed(sources: seq<string>, env: Env) returns (r: Result<seq<Asset>>)
    ensures r.Err? <==> exists i :: 0 <= i < |sources| && Unreadable(env, sources[i])
    ensures r.Err? ==> r.error == UnreadableImage
    ensures r.Ok? ==> (forall i :: 0 <= i < |r.value| ==> fresh(r.value[i]))
                      && Views(Reverse(r.value)) == SourceNodes(sources)
  {
    var stack := [];
    var i := |sources|;
    while i > 0
      invariant 0 <= i <= |sources|
      invariant forall k :: 0 <= k < |stack| ==> fresh(stack[k])
      invariant Views(Reverse(stack)) == SourceNodes(sources[i..])
      invariant forall k :: i <= k < |sources| ==> !Unreadable(env, sources[k])
    {
      i := i - 1;
      SourceNodesHead(sources[i..]);
      assert sources[i..][1..] == sources[i + 1..];
      var kind := AssetKind(sources[i]);
      if kind.Some? {
        if kind.value.Picture? && !env.opens(sources[i]) {
          assert Unreadable(env, sources[i]);
          return Err(UnreadableImage);
        }
        var asset := new Asset(kind.value);
        PushView(stack, asset);
        stack := stack + [asset];
      }
    }
    assert sources[0..] == sources;
    return Ok(stack);
  }

  lemma SourceNodesHead(sources: seq<string>)
    requires sources != []
    ensures SourceNodes(sources)
         == (if AssetKind(sources[0]).Some? then [Node(AssetKind(sources[0]).value, map[])] else [])
            + SourceNodes(sources[1..])
  {
  }

  /** Pushing an asset puts its view first in the reversed stack. */
  lemma PushView(stack: seq<Asset>, top: Asset)
    ensures Views(Reverse(stack + [top])) == [View(top)] + Views(Reverse(stack))
  {
    ReverseAppend(stack, [top]);
    ViewsAppend([top], Reverse(stack));
  }

  /** Popping the top of the stack: its view is the first of the reversed
      stack. */
  lemma PopView(stack: seq<Asset>)
    requires stack != []
    ensures Views(Reverse(stack)) == [View(stack[|stack| - 1])] + Views(Reverse(stack[..|stack| - 1]))
    ensures stack == stack[..|stack| - 1] + [stack[|stack| - 1]]
  {
    assert stack == stack[..|stack| - 1] + [stack[|stack| - 1]];
    PushView(stack[..|stack| - 1], stack[|stack| - 1]);
  }

  /** The processing loop of `convert`: pop an asset, convert it, place
      the result, until the stack is empty. The frames come out as the
      depth-first, left-to-right expansion of the stack from its top. */
  method Drain(stack0: seq<Asset>, env: Env, config: Config) returns (r: Result<seq<Asset>>)
    ensures r.Err? ==> ProduceAll(Views(Reverse(stack0)), Converting(env, config)) == Err(r.error)
    ensures r.Ok? ==> ProduceAll(Views(Reverse(stack0)), Converting(env, config)) == Ok(Views(r.value))
  {
    ghost var goal := ProduceAll(Views(Reverse(stack0)), Converting(env, config));
    var stack := stack0;
    var frames: seq<Asset> := [];
    CatEmpty(goal);
    while stack != []
      invariant Then(Views(frames), ProduceAll(Views(Reverse(stack)), Converting(env, config))) == goal
      decreases CountRank(stack, 3), CountRank(stack, 2), CountRank(stack, 1), CountRank(stack, 0)
    {
      var next := Turn(stack, frames, env, config);
      if next.Err? {
        return Err(next.error);
      }
      stack, frames := next.value.0, next.value.1;
    }
    assert Views(frames) + [] == Views(frames);
    return Ok(frames);
  }

  /** The stack `s` holds less work than `t`: fewer assets of the highest
      rank where they differ. */
  predicate Fewer(s: seq<Asset>, t: seq<Asset>) {
    || CountRank(s, 3) < CountRank(t, 3)
    || (CountRank(s, 3) == CountRank(t, 3) && CountRank(s, 2) < CountRank(t, 2))
    || (CountRank(s, 3) == CountRank(t, 3) && CountRank(s, 2) == CountRank(t, 2) && CountRank(s, 1) < CountRank(t, 1))
    || (CountRank(s, 3) == CountRank(t, 3) && CountRank(s, 2) == CountRank(t, 2) && CountRank(s, 1) == CountRank(t, 1)
        && CountRank(s, 0) < CountRank(t, 0))
  }

  /** One pass of the loop: pop the top asset, convert it and place the
      result, or stop with the conversion's error. */
  method Turn(stack: seq<Asset>, frames: seq<Asset>, env: Env, config: Config)
    returns (r: Result<(seq<Asset>, seq<Asset>)>)
    requires stack != []
    ensures r.Err? ==> Then(Views(frames), ProduceAll(Views(Reverse(stack)), Converting(env, config))) == Err(r.error)
    ensures r.Ok? ==>
              (Then(Views(r.value.1), ProduceAll(Views(Reverse(r.value.0)), Converting(env, config)))
               == Then(Views(frames), ProduceAll(Views(Reverse(stack)), Converting(env, config))))
    ensures r.Ok? ==> Fewer(r.value.0, stack)
  {
    ghost var step := Converting(env, config);
    var asset := stack[|stack| - 1];
    var rest := stack[..|stack| - 1];
    PopView(stack);
    var result := Convert(asset, env, config);
    if result.Err? {
      PopFails(Views(frames), View(asset), Views(Reverse(rest)), step);
      return Err(result.error);
    }
    var stack', frames' := Place(rest, frames, asset, result.value, step);
    Decreased(stack', stack, Rank(asset.kind));
    return Ok((stack', frames'));
  }

  /** Removing an asset of rank `top` and adding only lower ranks leaves
      less work. */
  lemma Decreased(s: seq<Asset>, t: seq<Asset>, top: nat)
    requires top <= 3
    requires forall k: nat :: k >= top ==> CountRank(s, k) + (if k == top then 1 else 0) == CountRank(t, k)
    ensures Fewer(s, t)
  {
    assert CountRank(s, 3) + (if 3 == top then 1 else 0) == CountRank(t, 3);
    assert top <= 2 ==> CountRank(s, 2) + (if 2 == top then 1 else 0) == CountRank(t, 2);
    assert top <= 1 ==> CountRank(s, 1) + (if 1 == top then 1 else 0) == CountRank(t, 1);
    assert top == 0 ==> CountRank(s, 0) + 1 == CountRank(t, 0);
  }

  /** The result of one conversion placed as the loop does: a list pushed
      in reverse, a frame output, another new asset pushed, the asset itself
      output when it is a frame and dropped otherwise. */
  method Place(stack: seq<Asset>, frames: seq<Asset>, asset: Asset, o: Outcome, ghost step: Converter)
    returns (stack': seq<Asset>, frames': seq<Asset>)
    requires Ranked(step) && step(View(asset)) == Ok(OutcomeView(o))
    ensures Then(Views(frames'), ProduceAll(Views(Reverse(stack')), step))
         == Then(Views(frames), ProduceAll([View(asset)] + Views(Reverse(stack)), step))
    ensures forall k: nat :: k >= Rank(asset.kind) ==>
              CountRank(stack', k) + (if k == Rank(asset.kind) then 1 else 0) == CountRank(stack + [asset], k)
  {
    assert Lowers(step(View(asset)).value, View(asset));
    match o {
      case Many(items) =>
        stack', frames' := PlaceMany(stack, frames, asset, items, step);
      case One(x) =>
        if x.kind.Frame? {
          PopFrame(Views(frames), View(asset), Views(Reverse(stack)), View(x), step);
          ViewsAppend(frames, [x]);
          assert Views([x]) == [View(x)];
          stack', frames' := stack, frames + [x];
        } else {
          PopOther(Views(frames), View(asset), Views(Reverse(stack)), View(x), step);
          PushView(stack, x);
          stack', frames' := stack + [x], frames;
        }
        forall k: nat | k >= Rank(asset.kind)
          ensures CountRank(stack', k) + (if k == Rank(asset.kind) then 1 else 0) == CountRank(stack + [asset], k)
        {
          if x.kind.Frame? {
            Shrinks(stack, asset, [], k);
            assert stack + [] == stack;
          } else {
            Shrinks(stack, asset, [x], k);
          }
        }
      case Same =>
        PopSame(Views(frames), View(asset), Views(Reverse(stack)), step);
        if asset.kind.Frame? {
          ViewsAppend(frames, [asset]);
          assert Views([asset]) == [View(asset)];
          stack', frames' := stack, frames + [asset];
        } else {
          assert Views(frames) + [] == Views(frames);
          stack', frames' := stack, frames;
        }
        forall k: nat | k >= Rank(asset.kind)
          ensures CountRank(stack', k) + (if k == Rank(asset.kind) then 1 else 0) == CountRank(stack + [asset], k)
        {
          Shrinks(stack, asset, [], k);
          assert stack + [] == stack;
        }
    }
  }

  /** A list result pushed in reverse, so that its first item is on top. */
  method PlaceMany(stack: seq<Asset>, frames: seq<Asset>, asset: Asset, items: seq<Asset>, ghost step: Converter)
    returns (stack': seq<Asset>, frames': seq<Asset>)
    requires Ranked(step) && step(View(asset)) == Ok(Several(Views(items)))
    ensures Then(Views(frames'), ProduceAll(Views(Reverse(stack')), step))
         == Then(Views(frames), ProduceAll([View(asset)] + Views(Reverse(stack)), step))
    ensures forall k: nat :: k >= Rank(asset.kind) ==>
              CountRank(stack', k) + (if k == Rank(asset.kind) then 1 else 0) == CountRank(stack + [asset], k)
  {
    assert Lowers(step(View(asset)).value, View(asset));
    assert forall i :: 0 <= i < |items| ==> Rank(Views(items)[i].kind) < Rank(asset.kind);
    PopMany(Views(frames), View(asset), Views(Reverse(stack)), Views(items), step);
    PushAll(stack, items);
    ManyCounts(stack, asset, items);
    stack', frames' := stack + Reverse(items), frames;
  }

  /** Pushing a list in reverse puts its views, in order, first in the
      reversed stack. */
  lemma PushAll(stack: seq<Asset>, items: seq<Asset>)
    ensures Views(Reverse(stack + Reverse(items))) == Views(items) + Views(Reverse(stack))
  {
    ReverseAppend(stack, Reverse(items));
    ReverseReverse(items);
    ViewsAppend(items, Reverse(stack));
  }

  lemma ManyCounts(stack: seq<Asset>, asset: Asset, items: seq<Asset>)
    requires forall i :: 0 <= i < |items| ==> Rank(items[i].kind) < Rank(asset.kind)
    ensures forall k: nat :: k >= Rank(asset.kind) ==>
              CountRank(stack + Reverse(items), k) + (if k == Rank(asset.kind) then 1 else 0) == CountRank(stack + [asset], k)
  {
    forall k: nat | k >= Rank(asset.kind)
      ensures CountRank(stack + Reverse(items), k) + (if k == Rank(asset.kind) then 1 else 0) == CountRank(stack + [asset], k)
    {
      Shrinks(stack, asset, Reverse(items), k);
    }
  }

  /** Seeding and processing together: the frames of the recognised
      sources, source by source, each expanded depth first. */
  method Collect(sources: seq<string>, env: Env, config: Config) returns (r: Result<seq<Asset>>)
    ensures r.Err? ==> SourceFrames(sources, env, config) == Err(r.error)
    ensures r.Ok? ==> SourceFrames(sources, env, config) == Ok(Views(r.value))
  {
    var stack :- Seed(sources, env);
    ReadableSources(sources, env, config);
    r := Drain(stack, env, config);
  }

  /** Sources contribute their frames in source order. */
  lemma SourcesInOrder(s: string, sources: seq<string>, step: Converter)
    requires Ranked(step)
    ensures ProduceAll(SourceNodes([s] + sources), step)
         == Cat(ProduceAll(SourceNodes([s]), step), ProduceAll(SourceNodes(sources), step))
  {
    assert ([s] + sources)[1..] == sources;
    assert [s][1..] == [];
    assert SourceNodes([s] + sources) == SourceNodes([s]) + SourceNodes(sources);
    ProduceAllAppend(SourceNodes([s]), SourceNodes(sources), step);
  }
}
