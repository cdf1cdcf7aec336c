/** Page selection: splitting a `file:spec` argument and resolving a spec
    such as `1-4,7,10-` against a page count into 1-based page numbers. */
module Pages {
  import opened Results
  import opened Text

  const HTTP: string := "http://"
  const HTTPS: string := "https://"
  const FTP: string := "ftp://"

  predicate IsUrl(path: string) {
    StartsWith(path, HTTP) || StartsWith(path, HTTPS) || StartsWith(path, FTP)
  }

  /** `parse_page_spec`: a URL is never split; otherwise the text after the
      last colon is a page spec when it is non-empty and holds a digit. */
  function ParsePageSpec(path: string): (r: (string, Option<string>))
    ensures IsUrl(path) ==> r == (path, None)
    ensures r.1.Some? ==> r.0 + [':'] + r.1.value == path
    ensures r.1.Some? ==> r.1.value != [] && HasDigit(r.1.value) && ':' !in r.1.value
    ensures r.1.None? ==> r.0 == path
    ensures !IsUrl(path) && ':' in path && HasDigit(path[RFind(path, ':') + 1..]) ==> r.1.Some?
    ensures !HasDigit(path) ==> r == (path, None)
  {
    if IsUrl(path) then (path, None)
    else
      var i := RFind(path, ':');
      if i >= 0 && path[i + 1..] != [] && HasDigit(path[i + 1..]) then
        assert path == path[..i] + [':'] + path[i + 1..];
        (path[..i], Some(path[i + 1..]))
      else (path, None)
  }

  /** Appending `:spec` to a path and splitting it off again: a spec with a
      digit and no colon comes back unchanged, with the path before it. */
  lemma SpecRoundTrip(file: string, spec: string)
    requires !IsUrl(file + [':'] + spec)
    requires HasDigit(spec) && ':' !in spec
    ensures ParsePageSpec(file + [':'] + spec) == (file, Some(spec))
  {
    var path := file + [':'] + spec;
    var i := RFind(path, ':');
    assert path[|file|] == ':';
    forall k | |file| < k < |path| ensures path[k] != ':' {
      assert path[k] == spec[k - |file| - 1];
    }
    assert i == |file|;
    assert path[..i] == file && path[i + 1..] == spec;
  }

  // ---- int() on a page token ----

  function DigitValue(c: char): nat
    requires IsDigit(c)
  {
    c as nat - '0' as nat
  }

  predicate AllDigits(s: string) {
    forall i :: 0 <= i < |s| ==> IsDigit(s[i])
  }

  /** The value of a string of decimal digits. */
  function DigitsValue(s: string): nat
    requires AllDigits(s)
  {
    if s == [] then 0 else 10 * DigitsValue(s[..|s| - 1]) + DigitValue(s[|s| - 1])
  }

  /** Python's `int(s)` on a string: surrounding white space, an optional
      sign, then one or more decimal digits; anything else is a ValueError. */
  function ParseInt(s: string): (r: Result<int>)
    ensures r.Err? ==> r.error == InvalidNumber
  {
    ParseSigned(Strip(s, CSpace))
  }

  /** An optional sign and one or more decimal digits. */
  function ParseSigned(t: string): (r: Result<int>)
    ensures r.Err? ==> r.error == InvalidNumber
  {
    var neg := t != [] && t[0] == '-';
    var digits := if t != [] && (t[0] == '-' || t[0] == '+') then t[1..] else t;
    if digits == [] || !AllDigits(digits) then Err(InvalidNumber)
    else Ok(if neg then -(DigitsValue(digits) as int) else DigitsValue(digits))
  }

  /** The decimal digits of `n` (`str(n)` for `n >= 0`). */
  function Decimal(n: nat): (s: string)
    ensures s != [] && AllDigits(s)
  {
    var d := ['0' + (n % 10) as char];
    if n < 10 then d else Decimal(n / 10) + d
  }

  lemma {:induction false} DecimalValue(n: nat)
    ensures DigitsValue(Decimal(n)) == n
  {
    var s := Decimal(n);
    if n >= 10 {
      DecimalValue(n / 10);
      assert s[..|s| - 1] == Decimal(n / 10);
    }
  }

  /** `int` on a bare or negated run of digits. */
  lemma ParseDigits(t: string)
    requires t != [] && AllDigits(t)
    ensures ParseInt(t) == Ok(DigitsValue(t) as int)
    ensures ParseInt(['-'] + t) == Ok(-(DigitsValue(t) as int))
  {
    SignedDigits(t);
    ParsePlain(t);
    ParsePlain(['-'] + t);
  }

  /** `int` of a token without surrounding white space. */
  lemma ParsePlain(t: string)
    requires t != [] && IsDigit(t[|t| - 1]) && (IsDigit(t[0]) || t[0] == '-')
    ensures ParseInt(t) == ParseSigned(t)
  {
    StripUnchanged(t);
  }

  lemma SignedDigits(t: string)
    requires t != [] && AllDigits(t)
    ensures ParseSigned(t) == Ok(DigitsValue(t) as int)
    ensures ParseSigned(['-'] + t) == Ok(-(DigitsValue(t) as int))
  {
    assert IsDigit(t[0]);
    assert (['-'] + t)[1..] == t;
  }

  /** `int` reads back what `str` wrote. */
  lemma ParseDecimal(n: nat)
    ensures ParseInt(Decimal(n)) == Ok(n as int)
  {
    DecimalValue(n);
    ParseDigits(Decimal(n));
  }

  lemma StripUnchanged(s: string)
    requires s != [] && !IsSpace(s[0]) && !IsSpace(s[|s| - 1])
    ensures Strip(s, CSpace) == s
  {
  }

  // ---- tokens ----

  /** `list(range(a, b))`. */
  function Range(a: int, b: int): (r: seq<int>)
    ensures |r| == if a <= b then b - a else 0
    ensures forall i :: 0 <= i < |r| ==> r[i] == a + i
  {
    seq(if a <= b then b - a else 0, i requires 0 <= i < (if a <= b then b - a else 0) => a + i)
  }

  /** `left-right`: pages `int(left)` to `int(right)`, or to the last page
      when `right` is empty. */
  function Span(left: string, right: string, total: int): (r: Result<seq<int>>)
    ensures r.Err? ==> r.error == InvalidNumber
  {
    var start :- ParseInt(left);
    var end :- if right == [] then Ok(total) else ParseInt(right);
    Ok(Range(start, end + 1))
  }

  /** The pages of one stripped token: `-N` is pages 1 to N, `A-B` pages A to
      B split at the first dash after the first character, `A-` pages A to
      the last one, and a bare number that page. */
  function Expand(part: string, total: int): (r: Result<seq<int>>)
    ensures r.Err? ==> r.error == InvalidNumber
  {
    if |part| > 1 && part[0] == '-' then
      var end :- ParseInt(part[1..]);
      Ok(Range(1, end + 1))
    else if part != [] && '-' in part[1..] then
      var d := 1 + Find(part[1..], '-');
      Span(part[..d], part[d + 1..], total)
    else
      var n :- ParseInt(part);
      Ok([n])
  }

  /** A run of digits holds no dash. */
  lemma NoDash(d: string)
    requires AllDigits(d)
    ensures '-' !in d
  {
  }

  /** The first dash after the first character of `a-...` is the one after
      `a`, when `a` is a run of digits. */
  lemma DashAfter(a: string, rest: string)
    requires a != [] && AllDigits(a)
    ensures var t := a + ['-'] + rest;
            '-' in t[1..] && 1 + Find(t[1..], '-') == |a|
            && t[..|a|] == a && t[|a| + 1..] == rest
  {
    var t := a + ['-'] + rest;
    assert t[1..] == a[1..] + ['-'] + rest;
    assert a[1..] == a[1..|a|];
    NoDash(a[1..]);
    FindAfter(a[1..], rest);
    assert t[..|a|] == a;
    assert t[|a| + 1..] == rest;
  }

  lemma FindAfter(u: string, rest: string)
    requires '-' !in u
    ensures Find(u + ['-'] + rest, '-') == |u|
  {
    var t := u + ['-'] + rest;
    assert t[|u|] == '-';
    forall i | 0 <= i < |u| ensures t[i] != '-' {
      assert t[i] == u[i];
    }
  }

  /** `-N`: the first N pages. */
  lemma ExpandLeading(b: nat, total: int)
    ensures Expand(['-'] + Decimal(b), total) == Ok(Range(1, b + 1))
  {
    var t := ['-'] + Decimal(b);
    assert t[1..] == Decimal(b);
    ParseDecimal(b);
  }

  /** A token `left-right` whose left side is a number takes the range
      branch, split at that dash. */
  lemma ExpandDash(left: string, right: string, total: int)
    requires left != [] && AllDigits(left)
    ensures Expand(left + ['-'] + right, total) == Span(left, right, total)
  {
    DashAfter(left, right);
    var t := left + ['-'] + right;
    assert t[0] == left[0];
    ExpandRange(t, total);
  }

  /** The range branch of `Expand`, taken by a token that does not start
      with a dash and has one after its first character. */
  lemma ExpandRange(part: string, total: int)
    requires part != [] && part[0] != '-' && '-' in part[1..]
    ensures var d := 1 + Find(part[1..], '-');
            Expand(part, total) == Span(part[..d], part[d + 1..], total)
  {
    assert !(|part| > 1 && part[0] == '-');
  }

  /** `A-B`: pages A to B. */
  lemma ExpandInterval(a: nat, b: nat, total: int)
    ensures Expand(Decimal(a) + ['-'] + Decimal(b), total) == Ok(Range(a, b + 1))
  {
    ExpandDash(Decimal(a), Decimal(b), total);
    ParseDecimal(a);
    ParseDecimal(b);
    SpanOf(Decimal(a), Decimal(b), total, a, b);
  }

  /** A span whose two sides read as `a` and `b`. */
  lemma SpanOf(left: string, right: string, total: int, a: int, b: int)
    requires ParseInt(left) == Ok(a) && right != [] && ParseInt(right) == Ok(b)
    ensures Span(left, right, total) == Ok(Range(a, b + 1))
  {
  }

  /** `A-`: pages A to the last one. */
  lemma ExpandOpen(a: nat, total: int)
    ensures Expand(Decimal(a) + ['-'], total) == Ok(Range(a, total + 1))
  {
    ExpandDash(Decimal(a), [], total);
    ParseDecimal(a);
    assert Decimal(a) + ['-'] == Decimal(a) + ['-'] + [];
  }

  /** `N`: page N alone. */
  lemma ExpandSingle(a: nat, total: int)
    ensures Expand(Decimal(a), total) == Ok([a])
  {
    var d := Decimal(a);
    NoDash(d);
    assert '-' !in d[1..] by { NoDash(d[1..]); }
    ParseDecimal(a);
  }

  /** The result of each stripped token. */
  function Tokens(parts: seq<string>, total: int): (r: seq<Result<seq<int>>>)
    ensures |r| == |parts|
    ensures forall i :: 0 <= i < |parts| ==> r[i] == Expand(Strip(parts[i], StrSpace), total)
  {
    seq(|parts|, i requires 0 <= i < |parts| => Expand(Strip(parts[i], StrSpace), total))
  }

  /** Token results in order: the pages of all of them, or the first
      failure. */
  function Gather(rs: seq<Result<seq<int>>>): (r: Result<seq<int>>)
  {
    if rs == [] then Ok([])
    else
      var init :- Gather(rs[..|rs| - 1]);
      var last :- rs[|rs| - 1];
      Ok(init + last)
  }

  /** The pages of all the tokens, in token order. */
  function ExpandAll(parts: seq<string>, total: int): (r: Result<seq<int>>)
    ensures r.Err? ==> r.error == InvalidNumber
  {
    GatherFails(Tokens(parts, total));
    Gather(Tokens(parts, total))
  }

  /** The gathering fails exactly when some token fails, and then with the
      error of the first one that does. */
  lemma {:induction false} GatherFails(rs: seq<Result<seq<int>>>)
    ensures Gather(rs).Err? <==> exists i :: 0 <= i < |rs| && rs[i].Err?
    ensures Gather(rs).Err? ==> exists i :: 0 <= i < |rs| && rs[i] == Err(Gather(rs).error)
                                                && forall j :: 0 <= j < i ==> rs[j].Ok?
  {
    if rs != [] {
      var init := rs[..|rs| - 1];
      GatherFails(init);
      assert forall i :: 0 <= i < |init| ==> init[i] == rs[i];
    }
  }

  /** Once a prefix fails, what follows it does not matter. */
  lemma {:induction false} GatherAppendFails(a: seq<Result<seq<int>>>, b: seq<Result<seq<int>>>)
    requires Gather(a).Err?
    ensures Gather(a + b) == Gather(a)
    decreases |b|
  {
    if b == [] {
      assert a + b == a;
    } else {
      var init := b[..|b| - 1];
      GatherAppendFails(a, init);
      assert (a + b)[..|a + b| - 1] == a + init;
    }
  }

  // ---- the final filter ----

  /** The de-duplicating, range-clipping pass of `parse_page_range`. */
  function Select(pages: seq<int>, total: int): (r: seq<int>)
  {
    if pages == [] then []
    else
      var r := Select(pages[..|pages| - 1], total);
      var p := pages[|pages| - 1];
      if 1 <= p <= total && p !in r then r + [p] else r
  }

  /** Index of the first occurrence of `p` in `s`. */
  function FirstIndex(s: seq<int>, p: int): (i: nat)
    requires p in s
    ensures i < |s| && s[i] == p && p !in s[..i]
  {
    if s[0] == p then 0 else
      assert p in s[1..];
      var k := FirstIndex(s[1..], p);
      assert s[..k + 1] == [s[0]] + s[1..][..k];
      k + 1
  }

  predicate Distinct(s: seq<int>) {
    forall i, j :: 0 <= i < j < |s| ==> s[i] != s[j]
  }

  /** What `parse_page_range` returns: every listed page within `1..total`,
      once, in the order of its first occurrence. */
  lemma {:induction false} SelectIsFirstOccurrences(pages: seq<int>, total: int)
    ensures var r := Select(pages, total);
            && (forall p :: p in r <==> p in pages && 1 <= p <= total)
            && Distinct(r)
            && (forall i, j :: 0 <= i < j < |r| ==> FirstIndex(pages, r[i]) < FirstIndex(pages, r[j]))
  {
    if pages != [] {
      var init := pages[..|pages| - 1];
      var p := pages[|pages| - 1];
      SelectIsFirstOccurrences(init, total);
      var s := Select(init, total);
      assert pages == init + [p];
      forall q | q in init
        ensures FirstIndex(pages, q) == FirstIndex(init, q)
      {
        FirstIndexPrefix(init, p, q);
      }
      if 1 <= p <= total && p !in s {
        assert p !in init;
        FirstIndexLast(init, p);
      }
    }
  }

  lemma FirstIndexPrefix(init: seq<int>, p: int, q: int)
    requires q in init
    ensures FirstIndex(init + [p], q) == FirstIndex(init, q)
  {
    var k := FirstIndex(init, q);
    assert (init + [p])[..k] == init[..k];
    FirstIndexIs(init + [p], q, k);
  }

  /** The first occurrence is the one with none before it. */
  lemma FirstIndexIs(s: seq<int>, p: int, i: nat)
    requires i < |s| && s[i] == p && p !in s[..i]
    ensures FirstIndex(s, p) == i
  {
  }

  lemma FirstIndexLast(init: seq<int>, p: int)
    requires p !in init
    ensures FirstIndex(init + [p], p) == |init|
  {
    assert (init + [p])[..|init|] == init;
    FirstIndexIs(init + [p], p, |init|);
  }

  /** `parse_page_range` on a spec and a page count. */
  function PageRange(spec: string, total: int): (r: Result<seq<int>>)
    ensures r.Err? ==> r.error == InvalidNumber
  {
    var pages :- ExpandAll(Split(spec, ','), total);
    Ok(Select(pages, total))
  }

  /** `str.strip()` also removes the separators U+001C..U+001F, so a page
      number followed by one still selects that page. */
  lemma SeparatorAroundPage(n: nat, c: char, total: int)
    requires '\U{1C}' <= c <= '\U{1F}'
    ensures PageRange(Decimal(n) + [c], total) == Ok(if 1 <= n <= total then [n] else [])
  {
    var d := Decimal(n);
    var spec := d + [c];
    assert IsDigit(d[0]) && IsDigit(d[|d| - 1]);
    NoComma(spec);
    SeparatorStripped(d, c);
    ExpandSingle(n, total);
    assert Tokens([spec], total) == [Ok([n])];
    GatherOne([n]);
    SelectOne(n, total);
  }

  lemma NoComma(s: string)
    requires forall i :: 0 <= i < |s| ==> s[i] != ','
    ensures Split(s, ',') == [s]
  {
  }

  lemma GatherOne(pages: seq<int>)
    ensures Gather([Ok(pages)]) == Ok(pages)
  {
    var rs := [Ok(pages)];
    assert rs[..|rs| - 1] == [] && Gather(rs[..|rs| - 1]) == Ok([]);
    assert [] + pages == pages;
  }

  lemma SelectOne(p: int, total: int)
    ensures Select([p], total) == if 1 <= p <= total then [p] else []
  {
    assert [p][..0] == [];
  }

  /** `parse_page_range`: expand each comma-separated token, then keep each
      in-range page once, at its first occurrence. */
  method ParsePageRange(spec: string, total: int) returns (r: Result<seq<int>>)
    ensures r == PageRange(spec, total)
  {
    var pages :- ExpandParts(Split(spec, ','), total);
    var valid := KeepFirstInRange(pages, total);
    r := Ok(valid);
  }

  /** The first loop of `parse_page_range`: the pages of every stripped
      token, in order; the first token that is not a number stops it. */
  method ExpandParts(parts: seq<string>, total: int) returns (r: Result<seq<int>>)
    ensures r == ExpandAll(parts, total)
  {
    ghost var tokens := Tokens(parts, total);
    var pages: seq<int> := [];
    for k := 0 to |parts|
      invariant Gather(tokens[..k]) == Ok(pages)
    {
      var part := Strip(parts[k], StrSpace);
      var expanded := Expand(part, total);
      if expanded.Err? {
        FirstFailure(tokens, k, pages);
        return Err(expanded.error);
      }
      NextToken(tokens, k, pages);
      pages := pages + expanded.value;
    }
    assert tokens[..|parts|] == tokens;
    r := Ok(pages);
  }

  /** The first failing token's error is the result. */
  lemma FirstFailure(tokens: seq<Result<seq<int>>>, k: nat, pages: seq<int>)
    requires k < |tokens| && Gather(tokens[..k]) == Ok(pages) && tokens[k].Err?
    ensures Gather(tokens) == tokens[k]
  {
    assert tokens[..k + 1][..k] == tokens[..k];
    GatherAppendFails(tokens[..k + 1], tokens[k + 1..]);
    assert tokens[..k + 1] + tokens[k + 1..] == tokens;
  }

  /** A token that succeeds adds its pages. */
  lemma NextToken(tokens: seq<Result<seq<int>>>, k: nat, pages: seq<int>)
    requires k < |tokens| && Gather(tokens[..k]) == Ok(pages) && tokens[k].Ok?
    ensures Gather(tokens[..k + 1]) == Ok(pages + tokens[k].value)
  {
    assert tokens[..k + 1][..k] == tokens[..k];
  }

  /** The second loop of `parse_page_range`: keep a page when it is in
      range and not yet in the `seen` set. */
  method KeepFirstInRange(pages: seq<int>, total: int) returns (valid: seq<int>)
    ensures valid == Select(pages, total)
  {
    var seen: set<int> := {};
    valid := [];
    for i := 0 to |pages|
      invariant valid == Select(pages[..i], total)
      invariant forall p :: p in seen <==> p in valid
    {
      var p := pages[i];
      SelectStep(pages, i, total);
      if 1 <= p <= total && p !in seen {
        valid := valid + [p];
        seen := seen + {p};
      }
    }
    assert pages[..|pages|] == pages;
  }

  lemma SelectStep(pages: seq<int>, i: nat, total: int)
    requires i < |pages|
    ensures Select(pages[..i + 1], total)
         == (var r := Select(pages[..i], total);
             if 1 <= pages[i] <= total && pages[i] !in r then r + [pages[i]] else r)
  {
    assert pages[..i + 1][..i] == pages[..i];
  }

  /** `parse_page_range` returns exactly the listed pages within
      `1..total`, each once, in the order they are first listed. */
  lemma PageRangeMeaning(spec: string, total: int)
    requires PageRange(spec, total).Ok?
    ensures var pages := ExpandAll(Split(spec, ','), total).value;
            var r := PageRange(spec, total).value;
            && (forall p :: p in r <==> p in pages && 1 <= p <= total)
            && Distinct(r)
            && (forall i, j :: 0 <= i < j < |r| ==> FirstIndex(pages, r[i]) < FirstIndex(pages, r[j]))
  {
    SelectIsFirstOccurrences(ExpandAll(Split(spec, ','), total).value, total);
  }

  /** The bounds part of `PageRangeMeaning`, for callers that index by the
      returned pages. */
  lemma PageRangeBounds(spec: string, total: int)
    requires PageRange(spec, total).Ok?
    ensures forall i :: 0 <= i < |PageRange(spec, total).value| ==> 1 <= PageRange(spec, total).value[i] <= total
    ensures Distinct(PageRange(spec, total).value)
  {
    var pages := ExpandAll(Split(spec, ','), total).value;
    assert PageRange(spec, total).value == Select(pages, total);
    SelectBounds(pages, total);
  }

  lemma SelectBounds(pages: seq<int>, total: int)
    ensures forall i :: 0 <= i < |Select(pages, total)| ==> 1 <= Select(pages, total)[i] <= total
    ensures Distinct(Select(pages, total))
  {
    SelectIsFirstOccurrences(pages, total);
    var r := Select(pages, total);
    forall i | 0 <= i < |r| ensures 1 <= r[i] <= total {
      assert r[i] in r;
    }
  }
}
