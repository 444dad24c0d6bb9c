/**
 * POSIX path names as `pathlib` reads them: `Path(p).name` is the last
 * component (empty components and "." dropped) and `Path(p).stem` is that
 * name without its final suffix.
 */
module Paths {
  /** Index of the last occurrence of c in s, or -1: `str.rfind`. */
  function RFind(s: string, c: char): (i: int)
    ensures -1 <= i < |s|
    ensures i >= 0 ==> s[i] == c
    ensures forall j :: i < j < |s| ==> s[j] != c
  {
    if s == [] then -1
    else if s[|s| - 1] == c then |s| - 1
    else RFind(s[..|s| - 1], c)
  }

  /** The '/'-separated components of p, in order. */
  function Split(p: string): seq<string>
  {
    var i := RFind(p, '/');
    if i < 0 then [p] else Split(p[..i]) + [p[i + 1..]]
  }

  /** The last component that is neither empty nor "."; "" when there is none. */
  function LastComponent(parts: seq<string>): string
  {
    if parts == [] then ""
    else if parts[|parts| - 1] != "" && parts[|parts| - 1] != "." then parts[|parts| - 1]
    else LastComponent(parts[..|parts| - 1])
  }

  /** `Path(p).name` */
  function Name(p: string): string
  {
    LastComponent(Split(p))
  }

  /** `Path(p).stem`, from the name: cut at the last '.' unless it is the first or last character. */
  function StemOfName(name: string): (stem: string)
    ensures stem <= name
  {
    var i := RFind(name, '.');
    if 0 < i < |name| - 1 then name[..i] else name
  }

  function Stem(p: string): string
  {
    StemOfName(Name(p))
  }

  /**
   * Appending a suffix that starts with '.' to a non-empty stem gives a name
   * whose stem is the original stem again: the suffix is what `Path.stem` strips.
   */
  lemma StemOfSuffixed(stem: string, ext: string)
    requires |stem| > 0 && |ext| > 1 && ext[0] == '.'
    requires forall j :: 1 <= j < |ext| ==> ext[j] != '.'
    ensures StemOfName(stem + ext) == stem
  {
    var name := stem + ext;
    var i := RFind(name, '.');
    assert name[|stem|] == '.';
    assert forall j :: |stem| < j < |name| ==> name[j] == ext[j - |stem|] != '.';
    assert i == |stem|;
    assert name[..|stem|] == stem;
  }
}
