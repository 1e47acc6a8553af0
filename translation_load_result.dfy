/** `TranslationLoadResult`: what every loader fills in. */
module TranslationLoadResult {
  class LoadResult {
    /** `RegexTranslations`. Its keys are compiled `Regex` objects, compared
        by reference, so every stored pattern is a new entry: the table is
        the list of (pattern, translation template) pairs in loading order. */
    var regexTranslations: seq<(string, string)>
    /** `Translations`: original text to translation. */
    var translations: map<string, string>
    /** `ElapsedMilliseconds`, `TotalEntries`, `TotalFiles`. */
    var elapsedMilliseconds: int
    var totalEntries: int
    var totalFiles: int

    /** A fresh result: both tables empty, the counters zero. */
    constructor ()
      ensures regexTranslations == [] && translations == map[]
      ensures elapsedMilliseconds == 0 && totalEntries == 0 && totalFiles == 0
    {
      regexTranslations := [];
      translations := map[];
      elapsedMilliseconds := 0;
      totalEntries := 0;
      totalFiles := 0;
    }
  }
}
