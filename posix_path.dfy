/**
  The two POSIX path operations the save target relies on: `os.path.splitext`
  (for a name with no counter) and `os.path.join` (for the initial name).
  Paths are plain character strings; the separator is '/' and the extension
  separator is '.'.
 */
module PosixPath {

  const Sep: char := '/'
  const ExtSep: char := '.'

  /** `s.rfind(c)`: the index of the last `c` in `s`, or -1 when there is none. */
  function RFind(s: string, c: char): (r: int)
    ensures -1 <= r < |s|
    ensures r >= 0 ==> s[r] == c
    ensures forall i :: r < i < |s| ==> s[i] != c
  {
    if s == [] then -1
    else if s[|s| - 1] == c then |s| - 1
    else RFind(s[..|s| - 1], c)
  }

  /** No separator at or after position `i`: `i` lies in the final component. */
  predicate InLastComponent(p: string, i: nat) {
    forall k :: i <= k < |p| ==> p[k] != Sep
  }

  /**
    True when the final component of `p` has an extension: its last dot lies
    after the last separator and is preceded, within that component, by
    something other than dots (so ".bashrc" and "..x" have none). Put without
    `rfind`: the final component has a non-dot character with a dot after it.
   */
  predicate HasExtension(p: string): (b: bool)
    ensures b <==>
              exists i, j :: 0 <= i < j < |p| && p[i] != ExtSep && p[j] == ExtSep && InLastComponent(p, i)
  {
    var sep := RFind(p, Sep);
    var dot := RFind(p, ExtSep);
    ExtensionWitnesses(p);
    dot > sep && exists i :: sep < i < dot && p[i] != ExtSep
  }

  /** The `rfind` test of `HasExtension` and its description without `rfind` agree. */
  lemma ExtensionWitnesses(p: string)
    ensures var sep, dot := RFind(p, Sep), RFind(p, ExtSep);
            (dot > sep && exists i :: sep < i < dot && p[i] != ExtSep) <==>
            (exists i, j :: 0 <= i < j < |p| && p[i] != ExtSep && p[j] == ExtSep && InLastComponent(p, i))
  {
    var sep, dot := RFind(p, Sep), RFind(p, ExtSep);
    if dot > sep && exists i :: sep < i < dot && p[i] != ExtSep {
      var i :| sep < i < dot && p[i] != ExtSep;
      assert InLastComponent(p, i);
      assert 0 <= i < dot < |p| && p[i] != ExtSep && p[dot] == ExtSep;
    }
    if exists i, j :: 0 <= i < j < |p| && p[i] != ExtSep && p[j] == ExtSep && InLastComponent(p, i) {
      var i, j :| 0 <= i < j < |p| && p[i] != ExtSep && p[j] == ExtSep && InLastComponent(p, i);
      assert j <= dot;
      assert sep < i;
    }
  }

  /**
    `os.path.splitext(p)` on POSIX: the stem and the extension. The extension
    is empty or starts with the final component's last dot and runs to the
    end of the path without any further dot or separator.
   */
  function SplitExt(p: string): (parts: (string, string))
    ensures parts.0 + parts.1 == p
    ensures parts.1 == [] <==> !HasExtension(p)
  {
    if HasExtension(p) then
      var dot := RFind(p, ExtSep);
      assert p[..dot] + p[dot..] == p;
      (p[..dot], p[dot..])
    else
      (p, [])
  }

  /**
    The directory part `os.path.join` puts in front of a relative component:
    `a` itself when it is empty or already ends in a separator, otherwise `a`
    followed by one separator.
   */
  function DirPrefix(a: string): (d: string)
    ensures a <= d && |d| <= |a| + 1
    ensures d == [] || d[|d| - 1] == Sep
    ensures a == [] || a[|a| - 1] == Sep ==> d == a
  {
    if a == [] || a[|a| - 1] == Sep then a else a + [Sep]
  }

  /**
    A non-empty extension starts at a dot and holds no further dot or
    separator, and the stem's final component has a character that is not a
    dot.
   */
  lemma ExtensionShape(p: string)
    ensures var (stem, ext) := SplitExt(p);
            ext != [] ==>
              ext[0] == ExtSep &&
              (forall i :: 0 < i < |ext| ==> ext[i] != ExtSep && ext[i] != Sep) &&
              (exists i :: 0 <= i < |stem| && stem[i] != ExtSep && InLastComponent(stem, i))
  {
    var (stem, ext) := SplitExt(p);
    if ext != [] {
      var sep, dot := RFind(p, Sep), RFind(p, ExtSep);
      assert stem == p[..dot] && ext == p[dot..];
      forall i | 0 < i < |ext| ensures ext[i] != ExtSep && ext[i] != Sep {
        assert ext[i] == p[dot + i];
      }
      var k :| sep < k < dot && p[k] != ExtSep;
      assert stem[k] == p[k];
      forall j | k <= j < |stem| ensures stem[j] != Sep {
        assert stem[j] == p[j];
      }
      assert InLastComponent(stem, k);
    }
  }

  /** `os.path.join(a, b)` for two components: an absolute `b` replaces `a`. */
  function Join(a: string, b: string): (r: string)
    ensures |b| <= |r| && r[|r| - |b|..] == b
    ensures |b| > 0 && b[0] == Sep ==> r == b
    ensures (|b| == 0 || b[0] != Sep) ==>
              a <= r && |r| == |DirPrefix(a)| + |b| &&
              (a != [] ==> |r| > |b| && r[|r| - |b| - 1] == Sep)
  {
    if |b| > 0 && b[0] == Sep then b else DirPrefix(a) + b
  }
}
