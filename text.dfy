/** Character-level helpers for the path and page-spec handling. Python's
    `str.lower()` is modelled on ASCII letters: no other character lowers to
    one of the ASCII letters the modelled code compares against. */
module Text {

  function LowerChar(c: char): (r: char)
    ensures 'A' <= c <= 'Z' ==> r as int == c as int + 32
    ensures !('A' <= c <= 'Z') ==> r == c
  {
    if 'A' <= c <= 'Z' then (c as int + 32) as char else c
  }

  /** `s.lower()`. */
  function Lower(s: string): (r: string)
    ensures |r| == |s|
    ensures forall i :: 0 <= i < |s| ==> r[i] == LowerChar(s[i])
  {
    seq(|s|, i requires 0 <= i < |s| => LowerChar(s[i]))
  }

  predicate IsDigit(c: char) {
    '0' <= c <= '9'
  }

  predicate HasDigit(s: string) {
    exists i :: 0 <= i < |s| && IsDigit(s[i])
  }

  predicate StartsWith(s: string, prefix: string) {
    |prefix| <= |s| && s[..|prefix|] == prefix
  }

  /** Index of the last occurrence of `c` in `s`, or -1 (`str.rfind`). */
  function RFind(s: string, c: char): (r: int)
    ensures -1 <= r < |s|
    ensures r >= 0 ==> s[r] == c
    ensures forall i :: r < i < |s| ==> s[i] != c
  {
    if s == [] then -1
    else if s[|s| - 1] == c then |s| - 1
    else RFind(s[..|s| - 1], c)
  }

  /** Index of the first occurrence of `c` in `s`, or -1 (`str.find`). */
  function Find(s: string, c: char): (r: int)
    ensures -1 <= r < |s|
    ensures r >= 0 ==> s[r] == c
    ensures forall i :: 0 <= i < |s| && (r < 0 || i < r) ==> s[i] != c
  {
    if s == [] then -1
    else if s[0] == c then 0
    else var k := Find(s[1..], c); if k < 0 then -1 else k + 1
  }

  /** Which characters count as white space. `CSpace` is C's `isspace`,
      the set `int()` skips around ASCII digits. `StrSpace` adds the
      separators U+001C..U+001F, which `str.strip()` also removes. */
  datatype Spaces = CSpace | StrSpace

  /** The white space of C's `isspace`. */
  predicate IsSpace(c: char) {
    c == ' ' || c == '\t' || c == '\n' || c == '\r' || c == '\U{B}' || c == '\U{C}'
  }

  /** The ASCII characters of `ws`. */
  predicate IsWhite(ws: Spaces, c: char) {
    IsSpace(c) || (ws == StrSpace && '\U{1C}' <= c <= '\U{1F}')
  }

  function StripLeft(s: string, ws: Spaces): (r: string)
    ensures |r| <= |s| && r == s[|s| - |r|..]
    ensures forall i :: 0 <= i < |s| - |r| ==> IsWhite(ws, s[i])
    ensures r == [] || !IsWhite(ws, r[0])
  {
    if s != [] && IsWhite(ws, s[0]) then StripLeft(s[1..], ws) else s
  }

  function StripRight(s: string, ws: Spaces): (r: string)
    ensures |r| <= |s| && r == s[..|r|]
    ensures forall i :: |r| <= i < |s| ==> IsWhite(ws, s[i])
    ensures r == [] || !IsWhite(ws, r[|r| - 1])
  {
    if s != [] && IsWhite(ws, s[|s| - 1]) then StripRight(s[..|s| - 1], ws) else s
  }

  /** `r` is `s` without its leading and trailing white space of `ws`: a
      slice of `s` with only such white space around it, neither starting
      nor ending with it. */
  ghost predicate Stripped(s: string, r: string, ws: Spaces) {
    && (exists a, b :: 0 <= a <= b <= |s| && r == s[a..b]
                    && (forall i :: 0 <= i < a ==> IsWhite(ws, s[i]))
                    && (forall i :: b <= i < |s| ==> IsWhite(ws, s[i])))
    && (r == [] || (!IsWhite(ws, r[0]) && !IsWhite(ws, r[|r| - 1])))
  }

  /** `s.strip()` with `StrSpace`; the stripping inside `int()` with
      `CSpace`. */
  function Strip(s: string, ws: Spaces): (r: string)
    ensures Stripped(s, r, ws)
  {
    var l := StripLeft(s, ws);
    var r := StripRight(l, ws);
    assert r == s[|s| - |l|..|s| - |l| + |r|];
    r
  }

  /** `str.strip()` removes a trailing separator U+001C..U+001F, which
      `int()` does not skip. */
  lemma SeparatorStripped(t: string, c: char)
    requires t != [] && !IsWhite(StrSpace, t[0]) && !IsWhite(StrSpace, t[|t| - 1])
    requires '\U{1C}' <= c <= '\U{1F}'
    ensures Strip(t + [c], StrSpace) == t
    ensures Strip(t + [c], CSpace) == t + [c]
  {
    var s := t + [c];
    assert s[0] == t[0] && s[|s| - 1] == c && s[..|s| - 1] == t;
    StripLeftStops(s, StrSpace);
    StripLeftStops(s, CSpace);
    StripRightStep(s, StrSpace);
    StripRightStops(t, StrSpace);
    StripRightStops(s, CSpace);
  }

  lemma StripLeftStops(s: string, ws: Spaces)
    requires s != [] && !IsWhite(ws, s[0])
    ensures StripLeft(s, ws) == s
  {
  }

  lemma StripRightStops(s: string, ws: Spaces)
    requires s != [] && !IsWhite(ws, s[|s| - 1])
    ensures StripRight(s, ws) == s
  {
  }

  lemma StripRightStep(s: string, ws: Spaces)
    requires s != [] && IsWhite(ws, s[|s| - 1])
    ensures StripRight(s, ws) == StripRight(s[..|s| - 1], ws)
  {
  }

  /** `s.split(sep)`: the pieces between the separators, at least one. */
  function Split(s: string, sep: char): (parts: seq<string>)
    ensures |parts| >= 1
    ensures forall k, i :: 0 <= k < |parts| && 0 <= i < |parts[k]| ==> parts[k][i] != sep
    decreases |s|
  {
    var i := Find(s, sep);
    if i < 0 then [s] else [s[..i]] + Split(s[i + 1..], sep)
  }

  /** `sep.join(parts)`. */
  function Join(parts: seq<string>, sep: char): string
    requires |parts| >= 1
  {
    if |parts| == 1 then parts[0] else parts[0] + [sep] + Join(parts[1..], sep)
  }

  /** Splitting loses nothing: joining the pieces gives the string back. */
  lemma {:induction false} SplitJoin(s: string, sep: char)
    ensures Join(Split(s, sep), sep) == s
    decreases |s|
  {
    var i := Find(s, sep);
    if i >= 0 {
      SplitAt(s, sep, i);
      SplitJoin(s[i + 1..], sep);
      JoinCons(s[..i], Split(s[i + 1..], sep), sep);
    }
  }

  /** One separator found: the piece before it, then the split of the rest. */
  lemma SplitAt(s: string, sep: char, i: int)
    requires i == Find(s, sep) && i >= 0
    ensures Split(s, sep) == [s[..i]] + Split(s[i + 1..], sep)
    ensures s == s[..i] + [sep] + s[i + 1..]
  {
  }

  lemma JoinCons(head: string, rest: seq<string>, sep: char)
    requires |rest| >= 1
    ensures Join([head] + rest, sep) == head + [sep] + Join(rest, sep)
  {
    assert ([head] + rest)[1..] == rest;
  }
}
