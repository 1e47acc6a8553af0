/** `FileTool.IsZipPathUnsafe`: the test applied to every entry name of a
    translation archive before it is read. */
module FileTool {
  import opened Text
  import opened DotNetPath

  /** `ParentPathSymbol`: `..` followed by the directory separator. */
  const ParentPathSymbol: string := ".." + [DirectorySeparatorChar]
  /** `PathSeparator`: the directory separator as a string. */
  const PathSeparator: string := [DirectorySeparatorChar]

  predicate IsSlash(c: char)
  {
    c == '/' || c == '\\'
  }

  /** Both slashes replaced by the platform separator, `/` first. */
  function NormalizedPath(entryName: string): (r: string)
    ensures |r| == |entryName|
    ensures forall i :: 0 <= i < |r| ==>
      r[i] == if IsSlash(entryName[i]) then DirectorySeparatorChar else entryName[i]
  {
    ReplaceChar(ReplaceChar(entryName, '/', DirectorySeparatorChar), '\\', DirectorySeparatorChar)
  }

  /** `IsZipPathUnsafe`: null or empty names, names with a parent-directory
      step, rooted names and names starting with a separator are unsafe. */
  function IsZipPathUnsafe(entryName: string): (unsafe: bool)
    ensures entryName == [] ==> unsafe
  {
    if entryName == [] then true
    else
      var normalizedPath := NormalizedPath(entryName);
      if Contains(normalizedPath, ParentPathSymbol) then true
      else if IsPathRooted(normalizedPath) then true
      else StartsWith(normalizedPath, PathSeparator)
  }

  /** Normalising commutes with dropping the first character. */
  lemma NormalizedTail(e: string)
    requires e != []
    ensures NormalizedPath(e)[1..] == NormalizedPath(e[1..])
  {
  }

  /** The normalised name starts with `..\` exactly when the name starts
      with `..` and either slash. */
  lemma NormalizedStartsWithParent(e: string)
    ensures StartsWith(NormalizedPath(e), ParentPathSymbol)
      <==> StartsWith(e, "../") || StartsWith(e, "..\\")
  {
    var n := NormalizedPath(e);
    if 3 <= |e| {
      assert n[..3][0] == n[0] && n[..3][1] == n[1] && n[..3][2] == n[2];
      assert e[..3][0] == e[0] && e[..3][1] == e[1] && e[..3][2] == e[2];
      if e[0] == '.' && e[1] == '.' && IsSlash(e[2]) {
        assert n[..3] == ParentPathSymbol;
        assert e[..3] == "../" || e[..3] == "..\\";
      }
    }
  }

  /** A parent-directory step survives normalisation with either slash. */
  lemma {:induction false} ParentStepWithEitherSlash(e: string)
    ensures Contains(NormalizedPath(e), ParentPathSymbol) <==> Contains(e, "../") || Contains(e, "..\\")
    decreases |e|
  {
    NormalizedStartsWithParent(e);
    if e != [] {
      NormalizedTail(e);
      ParentStepWithEitherSlash(e[1..]);
    }
  }

  /** The verdict in terms of the name as given: it is safe exactly when it
      is non-empty, has no `..` followed by `/` or `\`, does not start with a
      slash and has no drive colon in its second position. */
  lemma ZipPathSafeIff(entryName: string)
    ensures !IsZipPathUnsafe(entryName) <==>
      entryName != [] && !Contains(entryName, "../") && !Contains(entryName, "..\\")
      && !IsSlash(entryName[0]) && !(2 <= |entryName| && entryName[1] == VolumeSeparatorChar)
  {
    if entryName != [] {
      ParentStepWithEitherSlash(entryName);
      var n := NormalizedPath(entryName);
      assert StartsWith(n, PathSeparator) <==> n[0] == DirectorySeparatorChar by {
        assert n[..1][0] == n[0];
      }
    }
  }

  /** Any name with a parent-directory step is unsafe, whichever slash
      follows the two dots. */
  lemma TraversalIsUnsafe(a: string, b: string)
    ensures IsZipPathUnsafe(a + "../" + b) && IsZipPathUnsafe(a + "..\\" + b)
  {
    ContainsInfix(a, "../", b);
    ContainsInfix(a, "..\\", b);
    ZipPathSafeIff(a + "../" + b);
    ZipPathSafeIff(a + "..\\" + b);
  }

  /** Writing `/` or `\` at any position makes no difference. */
  lemma SlashChoiceIrrelevant(a: string, b: string)
    requires |a| == |b|
    requires forall i :: 0 <= i < |a| ==> a[i] == b[i] || (IsSlash(a[i]) && IsSlash(b[i]))
    ensures IsZipPathUnsafe(a) == IsZipPathUnsafe(b)
  {
    assert NormalizedPath(a) == NormalizedPath(b);
  }
}
