/** `TextTranslateManger`: the text translator driven by the asynchronous
    loader. It holds the plain and the regular-expression tables, refuses
    to translate before loading has completed, and marks every translation
    it hands out through the XUAT interop. Harmony patching and the loader
    thread are outside the model. */
module TextTranslateManger {
  import opened Wrappers
  import opened Text
  import StringTool
  import opened XuatInterop

  /** The second key tried: upper-cased first, then CR, LF and TAB
      removed, then trimmed. */
  function FallbackKey(original: string): string
  {
    Trim(Replace(Replace(Replace(ToUpper(original), "\r", ""), "\n", ""), "\t", ""), WhiteSpace)
  }

  /** The fallback key is the normalised text XUAT interop records, even
      though it upper-cases before stripping and trimming. */
  lemma FallbackKeyIsNormalizeText(original: string)
    ensures FallbackKey(original) == StringTool.NormalizeText(original)
  {
    var u := ToUpper(original);
    StringTool.StrippedIsReplace(u);
    StringTool.StrippedIsReplace(original);
    RemoveCharToUpper(original, '\r');
    RemoveCharToUpper(RemoveChar(original, '\r'), '\n');
    RemoveCharToUpper(RemoveChar(RemoveChar(original, '\r'), '\n'), '\t');
    var s := StringTool.Stripped(original);
    assert StringTool.Stripped(u) == ToUpper(s);
    TrimStartToUpper(s);
    TrimEndToUpper(TrimStart(s, WhiteSpace));
  }

  /** The text `GetTranslateText` hands to `MarkTranslated`, if any:
      nothing before loading has completed, for text that starts or ends
      with the marker, or for the empty text; then the exact entry, the
      entry under the fallback key, and last `regexMatch`, which stands for
      the template expansion of the first regular expression that matches
      (the regular expressions themselves are not modelled). */
  function Lookup(dict: map<string, string>, loaded: bool, original: string, marker: string,
                  regexMatch: Option<string>): (r: Option<string>)
    ensures r.Some? ==> r.value in dict.Values || r == regexMatch
    ensures r.Some? ==> loaded && original != []
  {
    if !loaded then None
    else if StartsWith(original, marker) || EndsWith(original, marker) then None
    else if original == [] then None
    else if original in dict then Some(dict[original])
    else if FallbackKey(original) in dict then Some(dict[FallbackKey(original)])
    else regexMatch
  }

  class Manager {
    /** `_initialized`. */
    var initialized: bool
    /** `_translationDict`. */
    var translationDict: map<string, string>
    /** `_regexTranslationDict`, as (pattern, template) pairs in order. */
    var regexTranslationDict: seq<(string, string)>
    /** `IsTranslationLoaded`, `IsLoading`. */
    var isTranslationLoaded: bool
    var isLoading: bool
    /** `FilesProcessed`, `TotalFiles`. */
    var filesProcessed: int
    var totalFiles: int

    /** The static initial state. */
    constructor ()
      ensures !initialized && !isTranslationLoaded && !isLoading
      ensures translationDict == map[] && regexTranslationDict == []
      ensures filesProcessed == 0 && totalFiles == 0
    {
      initialized := false;
      translationDict := map[];
      regexTranslationDict := [];
      isTranslationLoaded := false;
      isLoading := false;
      filesProcessed := 0;
      totalFiles := 0;
    }

    /** `Init`: a second call does nothing; the first forgets that anything
        was loaded and starts loading (`LoadTextAsync`). */
    method Init()
      modifies this
      ensures old(initialized) ==> (isTranslationLoaded == old(isTranslationLoaded)
        && isLoading == old(isLoading) && filesProcessed == old(filesProcessed)
        && totalFiles == old(totalFiles))
      ensures !old(initialized) ==> (!isTranslationLoaded && isLoading
        && filesProcessed == 0 && totalFiles == 0)
      ensures initialized
      ensures translationDict == old(translationDict) && regexTranslationDict == old(regexTranslationDict)
    {
      if initialized {
        return;
      }
      isTranslationLoaded := false;
      isLoading := true;
      filesProcessed := 0;
      totalFiles := 0;
      initialized := true;
    }

    /** `Unload`: only when initialised; cancels a running load, empties
        both tables and forgets that they were loaded. */
    method Unload()
      modifies this
      ensures !old(initialized) ==> (initialized == old(initialized)
        && isTranslationLoaded == old(isTranslationLoaded) && isLoading == old(isLoading)
        && translationDict == old(translationDict) && regexTranslationDict == old(regexTranslationDict)
        && filesProcessed == old(filesProcessed) && totalFiles == old(totalFiles))
      ensures old(initialized) ==> (!initialized && !isTranslationLoaded && !isLoading
        && translationDict == map[] && regexTranslationDict == [])
      ensures old(initialized) && old(isLoading) ==> filesProcessed == 0 && totalFiles == 0
      ensures old(initialized) && !old(isLoading) ==>
        filesProcessed == old(filesProcessed) && totalFiles == old(totalFiles)
    {
      if !initialized {
        return;
      }
      if isLoading {
        isLoading := false;
        filesProcessed := 0;
        totalFiles := 0;
      }
      translationDict := map[];
      regexTranslationDict := [];
      isTranslationLoaded := false;
      initialized := false;
    }

    /** `OnLoadingProgress`, without the progress fraction. */
    method OnLoadingProgress(filesProcessed: int, totalFiles: int)
      modifies this
      ensures this.filesProcessed == filesProcessed && this.totalFiles == totalFiles
      ensures initialized == old(initialized) && isLoading == old(isLoading)
      ensures isTranslationLoaded == old(isTranslationLoaded)
      ensures translationDict == old(translationDict) && regexTranslationDict == old(regexTranslationDict)
    {
      this.filesProcessed := filesProcessed;
      this.totalFiles := totalFiles;
    }

    /** `OnLoadingComplete`: the loader's tables replace the current ones
        and translation is enabled. */
    method OnLoadingComplete(result: map<string, string>, regexResult: seq<(string, string)>,
                             totalEntries: int, totalFiles: int, elapsedMilliseconds: int)
      modifies this
      ensures !isLoading && isTranslationLoaded
      ensures translationDict == result && regexTranslationDict == regexResult
      ensures filesProcessed == totalFiles && this.totalFiles == totalFiles
      ensures initialized == old(initialized)
    {
      isLoading := false;
      filesProcessed := totalFiles;
      this.totalFiles := totalFiles;
      isTranslationLoaded := true;
      translationDict := result;
      regexTranslationDict := regexResult;
    }

    /** `GetTranslateText`: `translated` starts as the original; when a
        translation is found it is marked (and recorded) by the interop. */
    method GetTranslateText(original: string, xuat: Interop, regexMatch: Option<string>)
      returns (found: bool, translated: string)
      requires xuat.Valid()
      modifies xuat
      ensures xuat.Valid() && xuat.marker == old(xuat.marker) && xuat.initialized == old(xuat.initialized)
      ensures var r := Lookup(translationDict, isTranslationLoaded, original, xuat.marker, regexMatch);
        && (found <==> r.Some?)
        && (!found ==> translated == original && xuat.translatedTexts == old(xuat.translatedTexts))
        && (found ==> translated == MarkedText(r.value, xuat.marker, false))
        && (found ==> xuat.translatedTexts == if StringTool.IsNullOrWhiteSpace(r.value) then old(xuat.translatedTexts)
                                               else old(xuat.translatedTexts) + {CleanText(r.value, xuat.marker)})
    {
      translated := original;
      if !isTranslationLoaded {
        return false, translated;
      }
      if StartsWith(original, xuat.marker) || EndsWith(original, xuat.marker) {
        return false, translated;
      }
      if original == [] {
        return false, translated;
      }
      if original in translationDict {
        translated := xuat.MarkTranslated(translationDict[original], false);
        return true, translated;
      }
      var key := Trim(Replace(Replace(Replace(ToUpper(original), "\r", ""), "\n", ""), "\t", ""), WhiteSpace);
      if key in translationDict {
        translated := xuat.MarkTranslated(translationDict[key], false);
        return true, translated;
      }
      if regexMatch.Some? {
        translated := xuat.MarkTranslated(regexMatch.value, false);
        return true, translated;
      }
      return false, translated;
    }
  }

  /** An exact entry wins over the fallback key and the regular
      expressions. */
  lemma ExactEntryFirst(dict: map<string, string>, original: string, marker: string,
                        regexMatch: Option<string>)
    requires original != [] && original in dict
    requires !StartsWith(original, marker) && !EndsWith(original, marker)
    ensures Lookup(dict, true, original, marker, regexMatch) == Some(dict[original])
  {
  }

  /** Text this manager has marked ends with the marker, so it is never
      translated again. */
  lemma MarkedOutputNotRetranslated(dict: map<string, string>, v: string, marker: string,
                                    regexMatch: Option<string>)
    requires !StringTool.IsNullOrWhiteSpace(v) && !Contains(v, marker)
    ensures Lookup(dict, true, MarkedText(v, marker, false), marker, regexMatch) == None
  {
    var t := v + marker;
    assert MarkedText(v, marker, false) == t;
    assert t[|t| - |marker|..] == marker;
    assert EndsWith(t, marker);
  }

  /** A text that differs from an entry's original only in letter case,
      CR/LF/TAB and surrounding whitespace finds that entry, once the
      exact lookup misses. */
  lemma FallbackFinds(dict: map<string, string>, original: string, marker: string,
                      regexMatch: Option<string>)
    requires original != [] && original !in dict
    requires !StartsWith(original, marker) && !EndsWith(original, marker)
    requires StringTool.NormalizeText(original) in dict
    ensures Lookup(dict, true, original, marker, regexMatch) == Some(dict[StringTool.NormalizeText(original)])
  {
    FallbackKeyIsNormalizeText(original);
  }

  // ---------------------------------------------------------------------
  // IsNumeric

  /** A decimal point, either style. */
  predicate IsPoint(c: char)
  {
    c == '.' || c == ','
  }

  /** What the short-text loop accepts: a leading `-` is skipped, every
      other character is a digit or a point, and at most one point occurs.
      No digit is required. */
  predicate LooseNumber(s: string)
  {
    (forall i :: 0 <= i < |s| ==> IsAsciiDigit(s[i]) || IsPoint(s[i]) || (i == 0 && s[i] == '-'))
    && (forall i, j :: 0 <= i < j < |s| && IsPoint(s[i]) ==> !IsPoint(s[j]))
  }

  /** What `IsNumeric` answers: false for the empty text, `LooseNumber` up
      to eight characters, the verdict of `decimal.TryParse` beyond. */
  predicate Numeric(s: string, decimalParses: string -> bool)
  {
    if s == [] then false
    else if |s| <= 8 then LooseNumber(s)
    else decimalParses(s)
  }

  /** `IsNumeric`, with the source's loop and its point flag. */
  method IsNumeric(text: string, decimalParses: string -> bool) returns (b: bool)
    ensures b == Numeric(text, decimalParses)
  {
    if text == [] {
      return false;
    }
    if |text| <= 8 {
      var hasDecimalPoint := false;
      var i := 0;
      while i < |text|
        invariant 0 <= i <= |text|
        invariant forall j :: 0 <= j < i ==> IsAsciiDigit(text[j]) || IsPoint(text[j]) || (j == 0 && text[j] == '-')
        invariant hasDecimalPoint <==> exists j :: 0 <= j < i && IsPoint(text[j])
        invariant forall j, l :: 0 <= j < l < i && IsPoint(text[j]) ==> !IsPoint(text[l])
      {
        var c := text[i];
        if i == 0 && c == '-' {
          i := i + 1;
          continue;
        }
        if c == '.' || c == ',' {
          if hasDecimalPoint {
            return false;
          }
          hasDecimalPoint := true;
        } else if c < '0' || c > '9' {
          return false;
        }
        i := i + 1;
      }
      return true;
    }
    return decimalParses(text);
  }

  /** Unlike `StringTool.IsNumeric`, this check takes texts without any
      digit, such as a lone `-` or `.`, for numbers, and it does not accept
      a leading `+`. */
  lemma NumericWithoutDigits(decimalParses: string -> bool)
    ensures Numeric("-", decimalParses) && Numeric(".", decimalParses) && Numeric("-,", decimalParses)
    ensures !StringTool.Numeric("-", decimalParses) && !StringTool.Numeric(".", decimalParses)
    ensures !Numeric("+1", decimalParses) && StringTool.Numeric("+1", decimalParses)
  {
    assert StringTool.ShortNumber("+1") by {
      assert IsAsciiDigit("+1"[1]);
    }
  }

  /** Every short number `StringTool.IsNumeric` accepts without a `+`
      sign, this check accepts too. */
  lemma ShortNumbersAgree(s: string, decimalParses: string -> bool)
    requires 2 <= |s| <= 8 && s[0] != '+'
    requires StringTool.Numeric(s, decimalParses)
    ensures Numeric(s, decimalParses)
  {
  }
}
