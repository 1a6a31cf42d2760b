/** A string model of the three `path` queries the tool uses: `filename()`,
    `extension()` and `stem()`. A path is split at its last '/' and a file
    name at its last '.'; the names "." and ".." have no extension. */
module Paths {

  /** The index of the last `c` in `s`, or -1. */
  function LastIndexOf(s: string, c: char): (r: int)
    ensures -1 <= r < |s|
    ensures r >= 0 ==> s[r] == c
    ensures forall k :: r < k < |s| ==> s[k] != c
  {
    if s == [] then -1
    else if s[|s| - 1] == c then |s| - 1
    else LastIndexOf(s[..|s| - 1], c)
  }

  /** `path::filename()`: the longest suffix of `p` without a '/'. */
  function Filename(p: string): (r: string)
    ensures '/' !in r
    ensures |r| <= |p|
  {
    p[LastIndexOf(p, '/') + 1..]
  }

  /** The file name is the suffix of the path after its last '/'. */
  lemma FilenameIsSuffix(p: string)
    ensures p[|p| - |Filename(p)|..] == Filename(p)
    ensures |Filename(p)| < |p| ==> p[|p| - |Filename(p)| - 1] == '/'
  {
  }

  /** Where the extension starts in the file name `f` (|f| when none). */
  function ExtensionStart(f: string): (k: nat)
    ensures k <= |f|
    ensures k < |f| ==> f[k] == '.' && forall j :: k < j < |f| ==> f[j] != '.'
  {
    if f == "." || f == ".." then |f|
    else var d := LastIndexOf(f, '.'); if d < 0 then |f| else d
  }

  /** `path::extension()`: the file name from its last '.' on, or empty. */
  function Extension(p: string): (r: string)
    ensures r == [] || (r[0] == '.' && '.' !in r[1..])
    ensures |r| <= |Filename(p)|
  {
    var f := Filename(p);
    f[ExtensionStart(f)..]
  }

  /** `path::stem()`: the file name without its extension. */
  function Stem(p: string): (r: string)
    ensures r + Extension(p) == Filename(p)
  {
    var f := Filename(p);
    assert f[..ExtensionStart(f)] + f[ExtensionStart(f)..] == f;
    f[..ExtensionStart(f)]
  }

  /** A '/'-free suffix of a path is a suffix of its file name. */
  lemma SuffixOfFilename(p: string, e: string)
    requires '/' !in e && |e| <= |p| && p[|p| - |e|..] == e
    ensures |e| <= |Filename(p)| && Filename(p)[|Filename(p)| - |e|..] == e
  {
    var f := Filename(p);
    FilenameIsSuffix(p);
    assert |e| <= |f|;
    forall j | 0 <= j < |e| ensures f[|f| - |e| + j] == e[j] {
      assert f[|f| - |e| + j] == p[|p| - |e| + j];
    }
  }

  /** A path ends in an extension-shaped suffix (a '.', then at least one
      character that is neither '.' nor '/') exactly when that suffix is
      its extension. */
  lemma ExtensionIsSuffix(p: string, e: string)
    requires |e| >= 2 && e[0] == '.'
    requires forall k :: 1 <= k < |e| ==> e[k] != '.' && e[k] != '/'
    ensures Extension(p) == e <==> |e| <= |p| && p[|p| - |e|..] == e
  {
    if |e| <= |p| && p[|p| - |e|..] == e {
      SuffixIsExtension(p, e);
    }
    if Extension(p) == e {
      ExtensionEndsPath(p);
    }
  }

  /** An extension-shaped suffix of a path is its extension. */
  lemma SuffixIsExtension(p: string, e: string)
    requires |e| >= 2 && e[0] == '.'
    requires forall k :: 1 <= k < |e| ==> e[k] != '.' && e[k] != '/'
    requires |e| <= |p| && p[|p| - |e|..] == e
    ensures Extension(p) == e
  {
    var f := Filename(p);
    SuffixOfFilename(p, e);
    var k := ExtensionStart(f);
    assert f[|f| - |e|] == e[0];
    assert f[k..] == e;
  }

  /** The extension is a suffix of the path. */
  lemma ExtensionEndsPath(p: string)
    ensures |Extension(p)| <= |p| && p[|p| - |Extension(p)|..] == Extension(p)
  {
    var f, e := Filename(p), Extension(p);
    FilenameIsSuffix(p);
    forall j | 0 <= j < |e| ensures p[|p| - |e| + j] == e[j] {
      assert p[|p| - |e| + j] == f[|f| - |e| + j];
    }
  }
}
