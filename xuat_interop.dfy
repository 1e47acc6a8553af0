/** `XUATInterop`: cooperation with the XUnity.AutoTranslator plugin (XUAT).
    Text this plugin has translated carries XUAT's marker string and its
    normalised form is recorded, so that XUAT does not translate it again. */
module XuatInterop {
  import opened Wrappers
  import opened Text
  import StringTool

  /** XUAT's Mongolian vowel separator, the marker until XUAT supplies one. */
  const DefaultMarker: string := "\U{180E}"

  /** The key under which a text is recorded: normalised, markers removed. */
  function CleanText(text: string, marker: string): string
    requires marker != []
  {
    Replace(StringTool.NormalizeText(text), marker, "")
  }

  /** What `MarkTranslated` returns: blank text and `skipMark` calls give
      the text back; otherwise the marker is appended unless it is already
      there. */
  function MarkedText(text: string, marker: string, skipMark: bool): string
  {
    if StringTool.IsNullOrWhiteSpace(text) || skipMark then text
    else if !Contains(text, marker) then text + marker
    else text
  }

  /** What the reflection probe of `Init` finds: no XUAT assembly, no
      `LanguageHelper` type in it, the helper with its marker field
      (absent, or holding a possibly empty value), or an exception thrown
      anywhere in the probe, also after the marker was read. */
  datatype XuatProbe = NoAssembly | NoLanguageHelper | Found(markerField: Option<string>) | Failed

  /** XUAT was found and its marker field holds a non-empty value. */
  predicate OffersMarker(probe: XuatProbe)
  {
    probe.Found? && probe.markerField.Some? && probe.markerField.value != []
  }

  /** Whether XUAT's `IsTranslatable` may go on with a text. */
  datatype PrefixDecision = Proceed | Block

  class Interop {
    /** `_initialized`. */
    var initialized: bool
    /** `XuatSpicalMaker`. */
    var marker: string
    /** `TranslatedTexts`. */
    var translatedTexts: set<string>

    /** The marker is never empty: it is only ever the default or a
        non-empty value read from XUAT. */
    ghost predicate Valid()
      reads this
    {
      marker != []
    }

    /** The static initial state. */
    constructor ()
      ensures Valid() && !initialized && marker == DefaultMarker && translatedTexts == {}
    {
      initialized := false;
      marker := DefaultMarker;
      translatedTexts := {};
    }

    /** `Init`: once initialised it reports success again; without XUAT or
        its helper type it reports failure; otherwise it adopts XUAT's
        marker when that is non-empty. A caught exception resets the marker
        to the default and reports failure. */
    method Init(probe: XuatProbe) returns (ok: bool)
      requires Valid()
      modifies this
      ensures Valid() && translatedTexts == old(translatedTexts)
      ensures old(initialized) ==> ok && marker == old(marker) && initialized
      ensures !old(initialized) ==> ok == probe.Found? && initialized == ok
      ensures !old(initialized) && OffersMarker(probe) ==> marker == probe.markerField.value
      ensures !old(initialized) && probe.Failed? ==> marker == DefaultMarker && !ok && !initialized
      ensures old(initialized) || !(OffersMarker(probe) || probe.Failed?) ==> marker == old(marker)
    {
      if initialized {
        return true;
      }
      match probe {
        case NoAssembly =>
          return false;
        case NoLanguageHelper =>
          return false;
        case Failed =>
          marker := DefaultMarker;
          initialized := false;
          return false;
        case Found(field) =>
          if field.Some? && field.value != [] {
            marker := field.value;
          }
      }
      initialized := true;
      return true;
    }

    /** `MarkTranslated`: records the clean form of non-blank text and
        returns `MarkedText`. */
    method MarkTranslated(text: string, skipMark: bool) returns (r: string)
      requires Valid()
      modifies this
      ensures Valid() && marker == old(marker) && initialized == old(initialized)
      ensures r == MarkedText(text, marker, skipMark)
      ensures translatedTexts == if StringTool.IsNullOrWhiteSpace(text) then old(translatedTexts)
                                 else old(translatedTexts) + {CleanText(text, marker)}
      ensures !StringTool.IsNullOrWhiteSpace(text) ==> IsJATTranslatedText(text)
    {
      if StringTool.IsNullOrWhiteSpace(text) {
        return text;
      }
      var cleanText := Replace(StringTool.NormalizeText(text), marker, "");
      translatedTexts := translatedTexts + {cleanText};
      if skipMark {
        return text;
      }
      if !Contains(text, marker) {
        return text + marker;
      }
      return text;
    }

    /** `IsJATTranslatedText`: non-blank text whose clean form is recorded. */
    predicate IsJATTranslatedText(text: string)
      reads this
      requires Valid()
    {
      !StringTool.IsNullOrWhiteSpace(text) && CleanText(text, marker) in translatedTexts
    }

    /** `IsContainsXuatSpicalMaker`. */
    predicate IsContainsXuatSpicalMaker(text: string)
      reads this
    {
      Contains(text, marker)
    }

    /** `XUAT_IsTranslatable_Prefix`, given whether the text is an original
        of the translation dictionary: XUAT is stopped (with result false)
        for marked text, dictionary originals and recorded output. */
    function IsTranslatablePrefix(text: string, inTranslateDict: bool): (d: PrefixDecision)
      reads this
      requires Valid()
      ensures d == Block <==>
        IsContainsXuatSpicalMaker(text) || inTranslateDict || IsJATTranslatedText(text)
    {
      if IsContainsXuatSpicalMaker(text) then Block
      else if inTranslateDict then Block
      else if IsJATTranslatedText(text) then Block
      else Proceed
    }

    /** What `MarkTranslated` leaves behind is refused by XUAT: once the
        clean form of a non-blank text is recorded, its marked or unmarked
        output is blocked, so XUAT never translates this plugin's output
        again. */
    lemma RecordedOutputBlocked(text: string, skipMark: bool, inTranslateDict: bool)
      requires Valid()
      requires !StringTool.IsNullOrWhiteSpace(text) && CleanText(text, marker) in translatedTexts
      ensures IsTranslatablePrefix(MarkedText(text, marker, skipMark), inTranslateDict) == Block
    {
      if !skipMark {
        MarkedTextHasMarker(text, marker);
      }
    }

    /** `OnSceneUnloaded`: forgets every recorded text. */
    method OnSceneUnloaded()
      requires Valid()
      modifies this
      ensures Valid() && translatedTexts == {}
      ensures marker == old(marker) && initialized == old(initialized)
    {
      translatedTexts := {};
    }

    /** `Unload`: forgets the recorded texts, restores the default marker
        and marks the interop uninitialised. */
    method Unload()
      modifies this
      ensures Valid() && translatedTexts == {} && marker == DefaultMarker && !initialized
    {
      translatedTexts := {};
      marker := DefaultMarker;
      initialized := false;
    }
  }

  /** Marked text always carries the marker, unless it was blank or the
      mark was skipped. */
  lemma MarkedTextHasMarker(text: string, marker: string)
    requires !StringTool.IsNullOrWhiteSpace(text)
    ensures Contains(MarkedText(text, marker, false), marker)
  {
    if !Contains(text, marker) {
      ContainsInfix(text, marker, []);
      assert text + marker + [] == text + marker;
    }
  }

  /** Blank text and skipped marks come back unchanged. */
  lemma MarkedTextUnchanged(text: string, marker: string, skipMark: bool)
    requires StringTool.IsNullOrWhiteSpace(text) || skipMark
    ensures MarkedText(text, marker, skipMark) == text
  {
  }

  /** Marking twice is marking once. */
  lemma MarkedTextIdempotent(text: string, marker: string)
    ensures MarkedText(MarkedText(text, marker, false), marker, false) == MarkedText(text, marker, false)
  {
    if !StringTool.IsNullOrWhiteSpace(text) {
      var m := MarkedText(text, marker, false);
      StringTool.IsNullOrWhiteSpaceIff(text);
      StringTool.IsNullOrWhiteSpaceIff(m);
      var i :| 0 <= i < |text| && text[i] !in WhiteSpace;
      assert m[i] == text[i];
      MarkedTextHasMarker(text, marker);
    }
  }
}
