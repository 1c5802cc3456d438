/** The `posixpath` string functions the pipeline uses to name its cache
    directory and its output file: `basename`, `splitext` and `join`. No
    file system is consulted; these work on path text alone. */
module Paths {

  const Sep: char := '/'
  const ExtSep: char := '.'

  /** `s.rfind(c)`: the index of the last `c` in `s`, or -1 when there is none. */
  function RFind(s: string, c: char): (i: int)
    ensures -1 <= i < |s|
    ensures i >= 0 ==> s[i] == c
    ensures forall k :: i < k < |s| ==> s[k] != c
  {
    if s == [] then -1
    else if s[|s| - 1] == c then |s| - 1
    else RFind(s[..|s| - 1], c)
  }

  /** `os.path.basename(p)`: the longest suffix of `p` without a separator. */
  function Basename(p: string): (b: string)
    ensures |b| <= |p| && b == p[|p| - |b|..]
    ensures Sep !in b
    ensures |b| < |p| ==> p[|p| - |b| - 1] == Sep
  {
    p[RFind(p, Sep) + 1..]
  }

  /** The base name is empty exactly for the empty path and for a path that
      ends in a separator, the two cases in which the output destination is
      taken to be a directory. */
  lemma BasenameEmpty(p: string)
    ensures Basename(p) == [] <==> p == [] || p[|p| - 1] == Sep
  {
  }

  /** `os.path.splitext(p)`: splits before the last '.' of the last path
      component, except that dots leading that component (as in ".profile")
      never start an extension. */
  function SplitExt(p: string): (parts: (string, string))
    ensures parts.0 + parts.1 == p
    ensures parts.1 == [] || (parts.1[0] == ExtSep && ExtSep !in parts.1[1..] && Sep !in parts.1)
    ensures parts.1 != [] ==> exists k | 0 <= k < |parts.0| :: parts.0[k] != ExtSep
    ensures (exists d, k :: RFind(p, Sep) < k < d < |p| && p[d] == ExtSep && p[k] != ExtSep) ==> parts.1 != []
  {
    var sepIndex := RFind(p, Sep);
    var dotIndex := RFind(p, ExtSep);
    if dotIndex > sepIndex && exists k | sepIndex + 1 <= k < dotIndex :: p[k] != ExtSep then
      (p[..dotIndex], p[dotIndex..])
    else
      (p, [])
  }

  /** The name without its extension: `os.path.splitext(p)[0]`. */
  function Stem(p: string): string
  {
    SplitExt(p).0
  }

  /** The stem of a base name is separator-free, so it names a single entry. */
  lemma StemOfBasename(p: string)
    ensures Sep !in Stem(Basename(p))
  {
    var b := Basename(p);
    var parts := SplitExt(b);
    assert parts.0 == b[..|parts.0|];
  }

  /** `os.path.join(a, b)` for two components. */
  function Join(a: string, b: string): (r: string)
    ensures |b| <= |r| && r[|r| - |b|..] == b
    ensures (b == [] || b[0] != Sep) ==> |a| <= |r| && r[..|a|] == a && |r| - |a| - |b| <= 1
    ensures |r| - |a| - |b| == 1 ==> r[|a|] == Sep
  {
    if b != [] && b[0] == Sep then b
    else if a == [] || a[|a| - 1] == Sep then a + b
    else a + [Sep] + b
  }

  /** A separator-free name placed after a separator (or at the start) is the
      base name of the result. */
  lemma {:induction false} BasenameOfAppend(a: string, b: string)
    requires a == [] || a[|a| - 1] == Sep
    requires Sep !in b
    ensures Basename(a + b) == b
  {
    if b == [] {
      assert a + b == a;
    } else {
      var n := |b| - 1;
      BasenameOfAppend(a, b[..n]);
      assert (a + b)[..|a + b| - 1] == a + b[..n];
      assert b == b[..n] + [b[n]];
    }
  }

  /** Joining a directory and a non-empty separator-free name gives a path
      whose base name is that name. */
  lemma BasenameOfJoin(dir: string, name: string)
    requires name != [] && Sep !in name
    ensures Basename(Join(dir, name)) == name
  {
    if dir == [] || dir[|dir| - 1] == Sep {
      BasenameOfAppend(dir, name);
    } else {
      BasenameOfAppend(dir + [Sep], name);
    }
  }
}
