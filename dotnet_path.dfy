/** The parts of `System.IO.Path` the plugin uses, for Windows paths, where
    `\` is the directory separator, `/` the alternative one and `:` the
    volume separator. */
module DotNetPath {
  import opened Text

  const DirectorySeparatorChar: char := '\\'
  const AltDirectorySeparatorChar: char := '/'
  const VolumeSeparatorChar: char := ':'

  /** The characters that end a directory or volume part. */
  predicate IsSeparator(c: char)
  {
    c == DirectorySeparatorChar || c == AltDirectorySeparatorChar || c == VolumeSeparatorChar
  }

  /** Where the file name starts: just after the last separator, or at 0. */
  function NameStart(path: string): (k: nat)
    ensures k <= |path|
    ensures forall i :: k <= i < |path| ==> !IsSeparator(path[i])
    ensures 0 < k ==> IsSeparator(path[k - 1])
    decreases |path|
  {
    if path == [] then 0
    else if IsSeparator(path[|path| - 1]) then |path|
    else NameStart(path[..|path| - 1])
  }

  /** `Path.GetFileName`: what follows the last separator. */
  function GetFileName(path: string): (r: string)
    ensures |r| <= |path|
    ensures forall i :: 0 <= i < |r| ==> !IsSeparator(r[i])
    ensures |r| < |path| ==> IsSeparator(path[|path| - |r| - 1])
  {
    path[NameStart(path)..]
  }

  /** The file name is the tail of the path. */
  lemma FileNameIsTail(path: string)
    ensures EndsWith(path, GetFileName(path))
  {
  }

  /** `String.LastIndexOf(c)`: the last position of `c`, or -1. */
  function LastIndexOfChar(s: string, c: char): (r: int)
    ensures -1 <= r < |s|
    ensures r == -1 <==> c !in s
    ensures r >= 0 ==> s[r] == c && c !in s[r + 1..]
    decreases |s|
  {
    if s == [] then -1
    else if s[|s| - 1] == c then |s| - 1
    else LastIndexOfChar(s[..|s| - 1], c)
  }

  /** `Path.GetExtension`: the file name from its last `.`, or "" when the
      file name has no `.` or ends with it. */
  function GetExtension(path: string): (r: string)
  {
    var name := GetFileName(path);
    var dot := LastIndexOfChar(name, '.');
    if dot == -1 || dot == |name| - 1 then "" else name[dot..]
  }

  /** `Path.GetFileNameWithoutExtension`: the file name cut before its last `.`. */
  function GetFileNameWithoutExtension(path: string): (r: string)
  {
    var name := GetFileName(path);
    var dot := LastIndexOfChar(name, '.');
    if dot == -1 then name else name[..dot]
  }

  /** `Path.IsPathRooted`: a leading separator or a drive letter. */
  predicate IsPathRooted(path: string)
  {
    (1 <= |path| && (path[0] == DirectorySeparatorChar || path[0] == AltDirectorySeparatorChar))
    || (2 <= |path| && path[1] == VolumeSeparatorChar)
  }

  /** A non-empty extension starts with the file name's last `.`, has at
      least one character after it, ends the path, and completes the name
      without extension to the file name. */
  lemma ExtensionNonEmpty(path: string)
    requires GetExtension(path) != []
    ensures var ext := GetExtension(path);
      2 <= |ext| && ext[0] == '.' && '.' !in ext[1..] && EndsWith(path, ext)
      && GetFileName(path) == GetFileNameWithoutExtension(path) + ext
  {
    ExtensionLastDot(path);
    ExtensionEndsPath(path);
    ExtensionSplitsName(path);
  }

  lemma ExtensionLastDot(path: string)
    requires GetExtension(path) != []
    ensures 2 <= |GetExtension(path)| && GetExtension(path)[0] == '.'
    ensures '.' !in GetExtension(path)[1..]
  {
    var name := GetFileName(path);
    var dot := LastIndexOfChar(name, '.');
    assert name[dot..][1..] == name[dot + 1..];
  }

  lemma ExtensionEndsPath(path: string)
    requires GetExtension(path) != []
    ensures EndsWith(path, GetExtension(path))
  {
    var k := NameStart(path);
    var dot := LastIndexOfChar(path[k..], '.');
    TailOfTail(path, k, dot);
  }

  /** A tail of a tail is a tail. */
  lemma TailOfTail<T>(s: seq<T>, a: int, b: int)
    requires 0 <= a <= |s| && 0 <= b <= |s| - a
    ensures s[a..][b..] == s[a + b..]
  {
  }

  lemma ExtensionSplitsName(path: string)
    requires GetExtension(path) != []
    ensures GetFileName(path) == GetFileNameWithoutExtension(path) + GetExtension(path)
  {
    var name := GetFileName(path);
    var dot := LastIndexOfChar(name, '.');
    assert name == name[..dot] + name[dot..];
  }

  /** An empty extension means the file name has no `.` or ends with one. */
  lemma ExtensionEmpty(path: string)
    requires GetExtension(path) == []
    ensures var name := GetFileName(path);
      '.' !in name || name[|name| - 1] == '.'
  {
  }

  /** Appending separator-free text does not move the start of the name. */
  lemma {:induction false} NameStartAppend(a: string, t: string)
    requires forall i :: 0 <= i < |t| ==> !IsSeparator(t[i])
    ensures NameStart(a + t) == NameStart(a)
    decreases |t|
  {
    if t == [] {
      assert a + t == a;
    } else {
      var t' := t[..|t| - 1];
      assert (a + t)[..|a + t| - 1] == a + t';
      NameStartAppend(a, t');
    }
  }

  /** Appending separator-free text extends the file name by that text. */
  lemma FileNameAppend(a: string, t: string)
    requires forall i :: 0 <= i < |t| ==> !IsSeparator(t[i])
    ensures GetFileName(a + t) == GetFileName(a) + t
  {
    NameStartAppend(a, t);
    assert (a + t)[NameStart(a)..] == a[NameStart(a)..] + t;
  }

  /** The last `.` of `x + ext` is the first character of `ext` when no other
      character of `ext` is a `.`. */
  lemma {:induction false} LastDotOfSuffix(x: string, ext: string)
    requires 1 <= |ext| && ext[0] == '.'
    requires forall i :: 1 <= i < |ext| ==> ext[i] != '.'
    ensures LastIndexOfChar(x + ext, '.') == |x|
    decreases |ext|
  {
    if |ext| > 1 {
      var e' := ext[..|ext| - 1];
      assert (x + ext)[..|x + ext| - 1] == x + e';
      LastDotOfSuffix(x, e');
    }
  }

  /** A path that ends with `.` followed by at least one character that is
      neither a `.` nor a separator has exactly that extension. */
  lemma ExtensionOfSuffix(path: string, ext: string)
    requires 2 <= |ext| && ext[0] == '.' && EndsWith(path, ext)
    requires forall i :: 1 <= i < |ext| ==> ext[i] != '.' && !IsSeparator(ext[i])
    ensures GetExtension(path) == ext
  {
    var a := path[..|path| - |ext|];
    assert path == a + ext;
    FileNameAppend(a, ext);
    var x := GetFileName(a);
    LastDotOfSuffix(x, ext);
    assert (x + ext)[|x|..] == ext;
  }
}
