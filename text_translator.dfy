/** `TextTranslator`: the older text translator. It reads the same
    `original<TAB>translation` lines as the TXT processor, but keeps XUAT's
    marker character in translations, can load synchronously, refuses any
    text containing the marker, and keeps its regular-expression table
    across `Unload`. Harmony patching and the loader thread are outside the
    model. */
module TextTranslator {
  import opened Wrappers
  import opened Text
  import opened Upserts
  import StringTool
  import opened XuatInterop
  import Txt = TxtTranslationFileProcessor
  import Manger = TextTranslateManger

  /** All lines of the files, in reading order. */
  function Concat(files: seq<seq<string>>): seq<string>
    decreases |files|
  {
    if files == [] then [] else Concat(files[..|files| - 1]) + files[|files| - 1]
  }

  /** The plain table after loading the files into `m`, file by file. */
  function PlainTable(m: map<string, string>, fs: seq<seq<string>>, unescape: string -> string): map<string, string>
    decreases |fs|
  {
    if fs == [] then m
    else Upsert(PlainTable(m, fs[..|fs| - 1], unescape), Txt.PlainPairs(fs[|fs| - 1], unescape, false))
  }

  /** The pattern pairs of the files, file by file. */
  function PatternList(fs: seq<seq<string>>, unescape: string -> string): seq<(string, string)>
    decreases |fs|
  {
    if fs == [] then []
    else PatternList(fs[..|fs| - 1], unescape) + Txt.RegexPairs(fs[|fs| - 1], unescape, false)
  }

  /** What one more file adds. */
  lemma TableSnoc(m: map<string, string>, fs: seq<seq<string>>, i: int, unescape: string -> string)
    requires 0 <= i < |fs|
    ensures PlainTable(m, fs[..i + 1], unescape)
      == Upsert(PlainTable(m, fs[..i], unescape), Txt.PlainPairs(fs[i], unescape, false))
    ensures PatternList(fs[..i + 1], unescape) == PatternList(fs[..i], unescape) + Txt.RegexPairs(fs[i], unescape, false)
  {
    assert fs[..i + 1][..i] == fs[..i];
  }

  /** Loading file by file is loading all their lines in one run, so the
      later of two lines for an original wins across files too. */
  lemma {:induction false} FilesAreOneRun(m: map<string, string>, fs: seq<seq<string>>, unescape: string -> string)
    ensures PlainTable(m, fs, unescape) == Upsert(m, Txt.PlainPairs(Concat(fs), unescape, false))
    ensures PatternList(fs, unescape) == Txt.RegexPairs(Concat(fs), unescape, false)
    decreases |fs|
  {
    if fs != [] {
      var init := fs[..|fs| - 1];
      var last := fs[|fs| - 1];
      FilesAreOneRun(m, init, unescape);
      Txt.PlainPairsAppend(Concat(init), last, unescape, false);
      Txt.RegexPairsAppend(Concat(init), last, unescape, false);
      UpsertAppend(m, Txt.PlainPairs(Concat(init), unescape, false), Txt.PlainPairs(last, unescape, false));
    }
  }

  /** The text `GetTranslateText` hands to `MarkTranslated`, if any: nothing
      for text containing the marker or for the empty text; then the exact
      entry, the entry under the fallback key, and last `regexMatch`, the
      template expansion of the first matching regular expression. */
  function Lookup(dict: map<string, string>, original: string, marker: string,
                  regexMatch: Option<string>): (r: Option<string>)
    ensures r.Some? ==> r.value in dict.Values || r == regexMatch
    ensures r.Some? ==> original != [] && !Contains(original, marker)
  {
    if Contains(original, marker) then None
    else if original == [] then None
    else if original in dict then Some(dict[original])
    else if Manger.FallbackKey(original) in dict then Some(dict[Manger.FallbackKey(original)])
    else regexMatch
  }

  class Translator {
    /** `TranslationDict`. */
    var translationDict: map<string, string>
    /** `RegexTranslationDict`, as (pattern, template) pairs in order. */
    var regexTranslationDict: seq<(string, string)>
    /** `_initialized`, `IsLoading`, `FilesProcessed`, `TotalFiles`. */
    var initialized: bool
    var isLoading: bool
    var filesProcessed: int
    var totalFiles: int

    /** The static initial state. */
    constructor ()
      ensures translationDict == map[] && regexTranslationDict == []
      ensures !initialized && !isLoading && filesProcessed == 0 && totalFiles == 0
    {
      translationDict := map[];
      regexTranslationDict := [];
      initialized := false;
      isLoading := false;
      filesProcessed := 0;
      totalFiles := 0;
    }

    /** `ProcessTranslationLine`: the TXT processor's rules without the
        marker removal, writing into this translator's tables. */
    method ProcessTranslationLine(line: string, unescape: string -> string) returns (ok: bool)
      modifies this`translationDict, this`regexTranslationDict
      ensures ok <==> Txt.ParseLine(line, unescape, false) != Txt.NoEntry
      ensures translationDict == Upsert(old(translationDict), Txt.PlainOf(Txt.ParseLine(line, unescape, false)))
      ensures regexTranslationDict == old(regexTranslationDict) + Txt.RegexOf(Txt.ParseLine(line, unescape, false))
    {
      if line == [] || StartsWith(line, ";") {
        return false;
      }
      var k := IndexOfChar(line, '\t');
      if k == -1 {
        return false;
      }
      var original := unescape(line[..k]);
      var translation := unescape(line[k + 1..]);
      if original == [] || translation == [] {
        return false;
      }
      ghost var m := translationDict;
      if StartsWith(line, "$") {
        regexTranslationDict := regexTranslationDict + [(original[1..], translation)];
        assert Upsert(m, []) == m;
      } else {
        translationDict := translationDict[original := translation];
        UpsertSnoc(m, [], (original, translation));
        assert [] + [(original, translation)] == [(original, translation)];
      }
      return true;
    }

    /** One pass of the `ProcessTranslationFile` loop: line `i` is processed
        and counted, extending what the first `i` lines stored. */
    method ProcessLineOf(lines: seq<string>, i: int, unescape: string -> string,
                         ghost m0: map<string, string>, ghost rx0: seq<(string, string)>, count: nat)
      returns (count': nat)
      modifies this`translationDict, this`regexTranslationDict
      requires 0 <= i < |lines|
      requires count == Txt.Accepted(lines[..i], unescape, false)
      requires translationDict == Upsert(m0, Txt.PlainPairs(lines[..i], unescape, false))
      requires regexTranslationDict == rx0 + Txt.RegexPairs(lines[..i], unescape, false)
      ensures count' == Txt.Accepted(lines[..i + 1], unescape, false)
      ensures translationDict == Upsert(m0, Txt.PlainPairs(lines[..i + 1], unescape, false))
      ensures regexTranslationDict == rx0 + Txt.RegexPairs(lines[..i + 1], unescape, false)
    {
      ghost var m, rx := translationDict, regexTranslationDict;
      var ok := ProcessTranslationLine(lines[i], unescape);
      Txt.LoadStep(m0, rx0, lines, i, unescape, false, count, m, rx, ok, translationDict, regexTranslationDict);
      count' := if ok then count + 1 else count;
    }

    /** `ProcessTranslationFile`, given the file's lines (read errors are
        not modelled): every line in order, counting the entries. */
    method ProcessTranslationFile(lines: seq<string>, unescape: string -> string) returns (entriesCount: nat)
      modifies this`translationDict, this`regexTranslationDict
      ensures entriesCount == Txt.Accepted(lines, unescape, false)
      ensures translationDict == Upsert(old(translationDict), Txt.PlainPairs(lines, unescape, false))
      ensures regexTranslationDict == old(regexTranslationDict) + Txt.RegexPairs(lines, unescape, false)
    {
      entriesCount := 0;
      var i := 0;
      while i < |lines|
        invariant 0 <= i <= |lines|
        invariant entriesCount == Txt.Accepted(lines[..i], unescape, false)
        invariant translationDict == Upsert(old(translationDict), Txt.PlainPairs(lines[..i], unescape, false))
        invariant regexTranslationDict == old(regexTranslationDict) + Txt.RegexPairs(lines[..i], unescape, false)
      {
        entriesCount := ProcessLineOf(lines, i, unescape, old(translationDict), old(regexTranslationDict), entriesCount);
        i := i + 1;
      }
      assert lines[..i] == lines;
    }

    /** The file loop of `LoadText`: each file in order. */
    method LoadFiles(fs: seq<seq<string>>, unescape: string -> string)
      modifies this`translationDict, this`regexTranslationDict
      ensures translationDict == PlainTable(old(translationDict), fs, unescape)
      ensures regexTranslationDict == old(regexTranslationDict) + PatternList(fs, unescape)
    {
      var i := 0;
      while i < |fs|
        invariant 0 <= i <= |fs|
        invariant translationDict == PlainTable(old(translationDict), fs[..i], unescape)
        invariant regexTranslationDict == old(regexTranslationDict) + PatternList(fs[..i], unescape)
      {
        TableSnoc(old(translationDict), fs, i, unescape);
        AppendAssoc(old(regexTranslationDict), PatternList(fs[..i], unescape), Txt.RegexPairs(fs[i], unescape, false));
        var n := ProcessTranslationFile(fs[i], unescape);
        i := i + 1;
      }
      assert fs[..i] == fs;
    }

    /** `LoadText`, given the files in reading order (root directory first,
        then the sub-directories, each sorted ordinally), or `None` when the
        translation directory is missing. The plain table starts afresh;
        the pattern table is not cleared and grows. */
    method LoadText(files: Option<seq<seq<string>>>, unescape: string -> string)
      modifies this`translationDict, this`regexTranslationDict
      ensures files.None? ==> translationDict == map[] && regexTranslationDict == old(regexTranslationDict)
      ensures files.Some? ==>
        translationDict == PlainTable(map[], files.value, unescape)
      ensures files.Some? ==>
        regexTranslationDict == old(regexTranslationDict) + PatternList(files.value, unescape)
    {
      translationDict := map[];
      if files.None? {
        return;
      }
      LoadFiles(files.value, unescape);
    }

    /** `Init`: a second call does nothing; otherwise loading starts in the
        background (`LoadTextAsync`) or runs at once (`LoadText`). */
    method Init(asyncLoading: bool, files: Option<seq<seq<string>>>, unescape: string -> string)
      modifies this
      ensures initialized
      ensures old(initialized) || asyncLoading ==> translationDict == old(translationDict)
      ensures old(initialized) || asyncLoading || files.None? ==> regexTranslationDict == old(regexTranslationDict)
      ensures old(initialized) || !asyncLoading ==>
        isLoading == old(isLoading) && filesProcessed == old(filesProcessed) && totalFiles == old(totalFiles)
      ensures !old(initialized) && asyncLoading ==> isLoading && filesProcessed == 0 && totalFiles == 0
      ensures !old(initialized) && !asyncLoading && files.None? ==> translationDict == map[]
      ensures !old(initialized) && !asyncLoading && files.Some? ==>
        translationDict == PlainTable(map[], files.value, unescape)
        && regexTranslationDict == old(regexTranslationDict) + PatternList(files.value, unescape)
    {
      if initialized {
        return;
      }
      if asyncLoading {
        isLoading := true;
        filesProcessed := 0;
        totalFiles := 0;
      } else {
        LoadText(files, unescape);
      }
      initialized := true;
    }

    /** `Unload`: only when initialised; cancels a running load and empties
        the plain table. The pattern table is kept. */
    method Unload()
      modifies this
      ensures !old(initialized) ==>
        (translationDict == old(translationDict) && initialized == old(initialized) && isLoading == old(isLoading))
      ensures old(initialized) ==> translationDict == map[] && !initialized && !isLoading
      ensures regexTranslationDict == old(regexTranslationDict)
      ensures filesProcessed == old(filesProcessed) && totalFiles == old(totalFiles)
    {
      if !initialized {
        return;
      }
      if isLoading {
        isLoading := false;
      }
      translationDict := map[];
      initialized := false;
    }

    /** `OnLoadingProgress`, without the progress fraction. */
    method OnLoadingProgress(filesProcessed: int, totalFiles: int)
      modifies this
      ensures this.filesProcessed == filesProcessed && this.totalFiles == totalFiles
      ensures initialized == old(initialized) && isLoading == old(isLoading)
      ensures translationDict == old(translationDict) && regexTranslationDict == old(regexTranslationDict)
    {
      this.filesProcessed := filesProcessed;
      this.totalFiles := totalFiles;
    }

    /** `OnLoadingComplete`: the loader's tables replace the current ones. */
    method OnLoadingComplete(result: map<string, string>, regexResult: seq<(string, string)>,
                             totalEntries: int, totalFiles: int, elapsedMilliseconds: int)
      modifies this
      ensures !isLoading && translationDict == result && regexTranslationDict == regexResult
      ensures filesProcessed == totalFiles && this.totalFiles == totalFiles
      ensures initialized == old(initialized)
    {
      isLoading := false;
      filesProcessed := totalFiles;
      this.totalFiles := totalFiles;
      translationDict := result;
      regexTranslationDict := regexResult;
    }

    /** `GetTranslateText`: `translated` starts as the original; a found
        translation is marked (and recorded) by the interop. */
    method GetTranslateText(original: string, xuat: Interop, regexMatch: Option<string>)
      returns (found: bool, translated: string)
      requires xuat.Valid()
      modifies xuat
      ensures xuat.Valid() && xuat.marker == old(xuat.marker) && xuat.initialized == old(xuat.initialized)
      ensures var r := Lookup(translationDict, original, xuat.marker, regexMatch);
        && (found <==> r.Some?)
        && (!found ==> translated == original && xuat.translatedTexts == old(xuat.translatedTexts))
        && (found ==> translated == MarkedText(r.value, xuat.marker, false))
        && (found ==> xuat.translatedTexts == if StringTool.IsNullOrWhiteSpace(r.value) then old(xuat.translatedTexts)
                                               else old(xuat.translatedTexts) + {CleanText(r.value, xuat.marker)})
    {
      translated := original;
      if Contains(original, xuat.marker) {
        return false, translated;
      }
      if original == [] {
        return false, translated;
      }
      if original in translationDict {
        translated := xuat.MarkTranslated(translationDict[original], false);
        return true, translated;
      }
      var key := Trim(Replace(Replace(Replace(ToUpper(original), "\r", ""), "\n", ""), "\t", ""), WhiteSpace);
      if key in translationDict {
        translated := xuat.MarkTranslated(translationDict[key], false);
        return true, translated;
      }
      if regexMatch.Some? {
        translated := xuat.MarkTranslated(regexMatch.value, false);
        return true, translated;
      }
      return false, translated;
    }
  }

  /** Whatever this translator finds, `TextTranslateManger` finds too, once
      it has loaded the same tables: its marker test is the weaker one. */
  lemma AgreesWithManger(dict: map<string, string>, original: string, marker: string,
                         regexMatch: Option<string>)
    requires marker != []
    requires Lookup(dict, original, marker, regexMatch).Some?
    ensures Manger.Lookup(dict, true, original, marker, regexMatch) == Lookup(dict, original, marker, regexMatch)
  {
    if StartsWith(original, marker) {
      StartsWithContains(original, marker);
    }
    if EndsWith(original, marker) {
      EndsWithContains(original, marker);
    }
  }

  /** The manager still translates a text with the marker in its middle;
      this translator does not. */
  lemma InnerMarkerRefused(dict: map<string, string>, a: string, marker: string, b: string,
                           regexMatch: Option<string>)
    ensures Lookup(dict, a + marker + b, marker, regexMatch) == None
  {
    ContainsInfix(a, marker, b);
  }

  /** On lines whose unescaped translation lacks the marker character,
      this translator and the TXT processor read the same entry. */
  lemma SameEntryWithoutMarker(line: string, unescape: string -> string)
    requires Txt.SplitFirstTab(line).Some? ==> Txt.MarkerChar !in unescape(Txt.SplitFirstTab(line).value.1)
    ensures Txt.ParseLine(line, unescape, false) == Txt.ParseLine(line, unescape, true)
  {
    if Txt.SplitFirstTab(line).Some? {
      RemoveAbsent(unescape(Txt.SplitFirstTab(line).value.1), Txt.MarkerChar);
    }
  }

  /** A line this translator rejects, the TXT processor rejects too. */
  lemma RejectedByBoth(line: string, unescape: string -> string)
    requires Txt.ParseLine(line, unescape, false) == Txt.NoEntry
    ensures Txt.ParseLine(line, unescape, true) == Txt.NoEntry
  {
    if Txt.SplitFirstTab(line).Some? {
      var b := Txt.SplitFirstTab(line).value.1;
      if unescape(b) == [] {
        assert RemoveChar(unescape(b), Txt.MarkerChar) == [];
      }
    }
  }
}
