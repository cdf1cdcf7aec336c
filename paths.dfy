/** The parts of a POSIX path the pipeline looks at: `pathlib`'s `name`,
    `suffix`, `stem` and parent, and `os.path.splitext`'s extension. */
module Paths {
  import opened Text

  /** Where the last component starts: after the last `/`. */
  function NameStart(p: string): (i: nat)
    ensures i <= |p|
    ensures i > 0 ==> p[i - 1] == '/'
    ensures forall k :: i <= k < |p| ==> p[k] != '/'
  {
    RFind(p, '/') + 1
  }

  /** `Path(p).name`. */
  function Name(p: string): (r: string)
    ensures '/' !in r
    ensures r == p[NameStart(p)..]
  {
    p[NameStart(p)..]
  }

  /** Where `Path(p).suffix` starts in the name, when there is one: the last
      dot, provided it is neither the first nor the last character. */
  function SuffixDot(name: string): (i: int)
    ensures -1 <= i < |name|
    ensures i >= 0 ==> 0 < i < |name| - 1 && name[i] == '.' && '.' !in name[i + 1..]
  {
    var i := RFind(name, '.');
    if 0 < i < |name| - 1 then i else -1
  }

  /** `Path(p).suffix`: empty or a dot followed by at least one character
      and no further dot. */
  function Suffix(p: string): (r: string)
    ensures r == [] || (|r| >= 2 && r[0] == '.' && '.' !in r[1..] && '/' !in r)
  {
    var n := Name(p);
    var i := SuffixDot(n);
    if i < 0 then [] else n[i..]
  }

  /** `Path(p).stem`: the name without its suffix. */
  function Stem(p: string): (r: string)
    ensures r + Suffix(p) == Name(p)
  {
    var n := Name(p);
    var i := SuffixDot(n);
    if i < 0 then n else n[..i]
  }

  /** `str(Path(p).parent / f)` for a plain name `f`: `f` next to the last
      component of `p` (no `./` prefix when `p` has no directory part). */
  function Sibling(p: string, f: string): (r: string)
    ensures r == p[..NameStart(p)] + f
  {
    p[..NameStart(p)] + f
  }

  /** The extension `os.path.splitext(p)[1]`: from the last dot of the last
      component on, unless only dots precede it there. */
  function SplitExt(p: string): (r: string)
    ensures r == [] || (r[0] == '.' && '.' !in r[1..] && '/' !in r)
  {
    var s := NameStart(p);
    var d := RFind(p, '.');
    if d >= s && exists k :: s <= k < d && p[k] != '.' then p[d..] else []
  }

  /** The two agree on an extension when the name does not start with a
      dot and does not end with one. */
  lemma SuffixIsSplitExt(p: string)
    requires Name(p) != [] && Name(p)[0] != '.' && Name(p)[|Name(p)| - 1] != '.'
    ensures Suffix(p) == SplitExt(p)
  {
    var s := NameStart(p);
    var n := Name(p);
    var d := RFind(p, '.');
    var i := RFind(n, '.');
    if d >= s {
      RFindShift(p, s, '.');
      assert p[s] == n[0] && p[s] != '.';
      assert p[d..] == n[i..];
    } else {
      RFindShift(p, s, '.');
    }
  }

  /** The last `c` of a suffix of `s` is the last `c` of `s`, shifted, or
      there is none in the suffix. */
  lemma RFindShift(s: string, start: nat, c: char)
    requires start <= |s|
    ensures var d := RFind(s, c);
            var i := RFind(s[start..], c);
            (d >= start ==> i == d - start) && (d < start ==> i == -1)
  {
    var d := RFind(s, c);
    var t := s[start..];
    var i := RFind(t, c);
    if i >= 0 {
      assert s[start + i] == c;
    }
    if d >= start {
      assert t[d - start] == c;
    }
  }
}
