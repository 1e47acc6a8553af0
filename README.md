# JustAnotherTranslator, modelled in Dafny

JustAnotherTranslator is a BepInEx plugin that translates the game COM3D2. It loads text, UI-term, texture, sprite and lyric translation files, answers the game's lookups through Harmony patches, and cooperates with XUnity.AutoTranslator (XUAT). A few Python scripts turn raw lyric and term exports into the CSV tables the plugin reads. This project models the deterministic logic under that glue, one Dafny module per source file, and proves what each piece promises.

- **`Utils/LRUCache.cs`** becomes the class `LruCache.LruCache`. The cache is a map plus a recency sequence, with the invariant that keys and list items match one to one, in capacity. `Set`, `TryGet`, `Remove` and `Clear` are proved against that state, eviction of the head included.
- **`StringTool`**, **`StringExtensions.Template`**, **`FileTool.IsZipPathUnsafe`** and the **Maid Cafe line-break fix** are functions and loop methods. Their lemmas cover idempotent normalisation, the digit rules of `IsNumeric`, the escaping round trip, and `|`/`:` serialisation that keeps different lists apart. For the template state machine they show placeholders expanded and literal characters kept in order. They also show which zip paths are refused, and that the 20-character line break is undone by removing the one newline.
- **The TXT and CSV loaders** are modelled as line and record loops. They are proved to add entries to the tables with the last entry winning (module `Upserts`), and to count exactly the accepted lines.
- **The translators** are classes whose state is their tables and flags: `TextTranslateManger`, `TextTranslator`, both `UITranslateManager`s, `TextureReplaceManger` and `TextureReplacer`. The proofs cover the lookup order: exact hit, then the normalised key, then the first-path-segment fallback for UI terms. They also cover the XUAT marker rules and the dump buffer's deduplication and flush. For textures they cover the `.tex` to `.png` renaming, and the LRU caches in front of the file reads.
- **`XUATInterop`** is the class `XuatInterop.Interop`: the marker, the set of texts the plugin translated, and the `IsTranslatable` prefix decision.
- **`LyricManger.LoadSubtitle`** is the lyric line parser. The header line is tolerated; every later line needs four comma fields and two parseable times.
- **Subtitle bookkeeping** covers the per-speaker id allocation, with a proof that distinct speakers never share an id, and the component registry. It also covers the voice-text and coroutine maps of `SubtitleManager`, and the enum mapping and type selector of `SubtitleConfig`.
- **The Python converters** are the modules `LyricCsvConvert` and `TermCsvConvert`. Files are rows of cells, and results are the record count, 0 or -1. For the lyric converter, when the input is not read as the `ID,start,end,lyric` layout, a second conversion of its own output gives the same output again.

Conventions of the model:
- C# `null` is `None` where the code tells it apart from `""`, and `""` where the code only asks `IsNullOrEmpty`.
- Integers are unbounded.
- Strings are sequences of Unicode scalar values, while .NET's `Length`, indexing and `Substring` count UTF-16 code units. The two agree on text inside the Basic Multilingual Plane; a character outside it counts once in the model and twice in the plugin.
- What the plugin calls from outside the modelled files, or gets from the platform, is a parameter of the member that uses it:
  - `Unescape`;
  - float, int and decimal parsing;
  - regex matching;
  - file contents, directory listings and texture bytes;
  - whether the Maid Cafe streaming part is running;
  - the id a launched coroutine gets.
- The .NET operations the code relies on are written out in the modules `Text` and `DotNetPath`:
  - `String.Trim` with its white-space set;
  - `Replace` and `Split`;
  - `Path.GetFileName`, `GetExtension` and `IsPathRooted` for Windows paths.

Several source files are near copies, and one member models all of them:
- `LyricCsvConvert.ConvertLyricCsv` and `DetectCsvFormatRules` model `Script/lyric_csv_format_convert_English.py`. They equally model `Script/lyric_csv_format_convert_Chinese.py`, whose code is the same line for line; only the messages differ.
- `TermCsvConvert.ConvertSingleCsv` models `Script/ui_csv_format_convert_English.py`. It equally models `script/ui_csv_format_convert.py:14-81` and `script/csv_format_convert.py:14-81`, which hold the same code. The oldest of them writes UTF-8 without a byte-order mark, which the model does not tell apart.

## Model

| member | source | states |
|---|---|---|
| LruCache.Without | COM3D2.JustAnotherTranslator.Plugin/Utils/LRUCache.cs:124-127 | unlinking a key from the recency list leaves exactly the other keys; on a list without repetitions the result has none and is one shorter when the key was there; an absent key leaves the list as it is |
| LruCache.DistinctCard | COM3D2.JustAnotherTranslator.Plugin/Utils/LRUCache.cs:14-16 | a recency list without repetitions that holds exactly the cached keys is as long as the dictionary is large |
| LruCache.TouchConsistent | COM3D2.JustAnotherTranslator.Plugin/Utils/LRUCache.cs:67-73 | moving a cached key to the most recent end and updating its value keeps the dictionary and list in one-to-one correspondence within capacity |
| LruCache.EvictConsistent | COM3D2.JustAnotherTranslator.Plugin/Utils/LRUCache.cs:77-87 | evicting the list head of a full cache and adding a new key at the end keeps the correspondence and the capacity bound |
| LruCache.AddConsistent | COM3D2.JustAnotherTranslator.Plugin/Utils/LRUCache.cs:84-87 | adding a new key to a cache with room keeps the correspondence and the capacity bound |
| LruCache.LruCache.constructor | COM3D2.JustAnotherTranslator.Plugin/Utils/LRUCache.cs:22-30 | a positive capacity gives an empty, consistent cache |
| LruCache.LruCache.Create | COM3D2.JustAnotherTranslator.Plugin/Utils/LRUCache.cs:22-30 | a capacity that is not positive throws (no cache); any other gives a fresh empty cache of that capacity |
| LruCache.LruCache.Count | COM3D2.JustAnotherTranslator.Plugin/Utils/LRUCache.cs:35 | the number of entries never exceeds the capacity and equals the length of the recency list |
| LruCache.LruCache.TryGet | COM3D2.JustAnotherTranslator.Plugin/Utils/LRUCache.cs:43-58 | a hit returns the stored value and moves only that key to the most recent end; a miss returns nothing and changes nothing; the dictionary itself never changes |
| LruCache.LruCache.Set | COM3D2.JustAnotherTranslator.Plugin/Utils/LRUCache.cs:65-89 | an existing key gets the new value and moves to the most recent end with no eviction and the same count; a new key evicts the list head when the cache is full and is added at the end; afterwards the key maps to the value, is most recent, and no other key has appeared |
| LruCache.LruCache.Clear | COM3D2.JustAnotherTranslator.Plugin/Utils/LRUCache.cs:94-98 | both the dictionary and the recency list are empty |
| LruCache.LruCache.Remove | COM3D2.JustAnotherTranslator.Plugin/Utils/LRUCache.cs:122-129 | only the key goes, from both the dictionary and the list; the others keep their values and their order; an absent key changes nothing |
| StringTool.Stripped | COM3D2.JustAnotherTranslator.Plugin/Utils/StringTool.cs:29-30 | after the three `Replace` calls the text holds no CR, LF or TAB, and every other character of the input survives |
| StringTool.StrippedIsReplace | COM3D2.JustAnotherTranslator.Plugin/Utils/StringTool.cs:29-30 | replacing CR, LF and TAB by nothing, one after the other, is removing those characters |
| StringTool.NormalizeText | COM3D2.JustAnotherTranslator.Plugin/Utils/StringTool.cs:27-31 | the normalised key: CR, LF and TAB removed, the listed whitespace trimmed, upper-cased; `NormalizeTextShape` and `NormalizeTextIdempotent` prove what it leaves and that a second pass changes nothing |
| StringTool.NormalizeTextShape | COM3D2.JustAnotherTranslator.Plugin/Utils/StringTool.cs:27-31 | the normalised text holds no CR, LF or TAB, neither starts nor ends with one of the listed whitespace characters, and holds no lower-case letter |
| StringTool.NormalizeTextIdempotent | COM3D2.JustAnotherTranslator.Plugin/Utils/StringTool.cs:27-31 | normalising a normalised text changes nothing |
| StringTool.Numeric | COM3D2.JustAnotherTranslator.Plugin/Utils/StringTool.cs:40-85 | the rule of `IsNumeric`: false when empty, a 0-9 test for one character, `ShortNumber` up to eight, `decimal.TryParse` beyond; `IsNumeric` is proved equal to it and `ShortNumberNeedsDigit` pins its edge cases |
| StringTool.IsNumeric | COM3D2.JustAnotherTranslator.Plugin/Utils/StringTool.cs:40-85 | the flag loop answers exactly the `Numeric` rule: false for the empty text, a 0-9 test for one character, up to eight characters an optional leading sign then digits and at most one `.` with at least one digit, and the `decimal.TryParse` verdict beyond |
| StringTool.ShortNumberNeedsDigit | COM3D2.JustAnotherTranslator.Plugin/Utils/StringTool.cs:40-81 | for texts of one to eight characters: `-`, `+`, `.`, `-.` and `+.` are not numeric, and a numeric text holds a digit and, after its first character, only digits and `.` |
| StringTool.IsNullOrWhiteSpace | COM3D2.JustAnotherTranslator.Plugin/Utils/StringTool.cs:93-96 | empty, or trimming to nothing; `IsNullOrWhiteSpaceIff` proves it holds exactly when every character is white space |
| StringTool.IsNullOrWhiteSpaceIff | COM3D2.JustAnotherTranslator.Plugin/Utils/StringTool.cs:93-96 | a text is null-or-white-space exactly when every character of it is a whitespace character |
| StringTool.JoinStringList | COM3D2.JustAnotherTranslator.Plugin/Utils/StringTool.cs:104-109 | null for an empty list, otherwise the items joined by `\|`; `JoinStringListSplit` proves that splitting gives a separator-free list back |
| StringTool.JoinStringListSplit | COM3D2.JustAnotherTranslator.Plugin/Utils/StringTool.cs:104-109 | the result is null exactly for the empty list, and a list whose items hold no `\|` is recovered by splitting the joined text at `\|` |
| StringTool.JoinIntList | COM3D2.JustAnotherTranslator.Plugin/Utils/StringTool.cs:116-124 | null for the empty list, otherwise the invariant-culture form of each number in order, separated by `\|` |
| StringTool.JoinedIntsInjective | COM3D2.JustAnotherTranslator.Plugin/Utils/StringTool.cs:116-124 | two non-empty integer lists that join to the same text are equal |
| StringTool.Escape | COM3D2.JustAnotherTranslator.Plugin/Utils/StringTool.cs:154-164 | the five chained `Replace` calls, backslash first; `EscapeIsEscapeEach`, `UnescapeEscape` and `EscapeInjective` prove that it escapes character by character, is undone by the decoder and tells texts apart |
| StringTool.EscapeIsEscapeEach | COM3D2.JustAnotherTranslator.Plugin/Utils/StringTool.cs:154-164 | the five `Replace` calls, backslash first, replace each character by its own escape, as if done character by character |
| StringTool.LexEscape | COM3D2.JustAnotherTranslator.Plugin/Utils/StringTool.cs:157-162 | escaped text read left to right gives back its characters, whatever follows it |
| StringTool.UnescapeEscape | COM3D2.JustAnotherTranslator.Plugin/Utils/StringTool.cs:154-164 | a left-to-right `\x` decoder recovers the input of `Escape` |
| StringTool.EscapeInjective | COM3D2.JustAnotherTranslator.Plugin/Utils/StringTool.cs:154-164 | two texts with the same escape are equal |
| StringTool.SerializedSnoc | COM3D2.JustAnotherTranslator.Plugin/Utils/StringTool.cs:134-146 | one more item appends its group after the groups before it, preceded by `\|` unless it is the first |
| StringTool.Serialized | COM3D2.JustAnotherTranslator.Plugin/Utils/StringTool.cs:130-149 | the `\|`-joined `id:a:b:c` groups of the part list; `SerializedTokens` and `SerializedInjective` prove that it reads back group by group and that different lists serialise differently |
| StringTool.SerializeSingPartList | COM3D2.JustAnotherTranslator.Plugin/Utils/StringTool.cs:130-149 | null for the empty list; otherwise one `id:esc(a):esc(b):esc(c)` group per item, in order, separated by `\|` |
| StringTool.GroupFields | COM3D2.JustAnotherTranslator.Plugin/Utils/StringTool.cs:139-145 | one group reads back as its four fields split at the unescaped `:`, and holds no unescaped `\|` |
| StringTool.GroupTokensInjective | COM3D2.JustAnotherTranslator.Plugin/Utils/StringTool.cs:139-145 | a group's read-back determines the sing part |
| StringTool.LexJoinGroups | COM3D2.JustAnotherTranslator.Plugin/Utils/StringTool.cs:134-146 | the joined groups read back as the groups' tokens joined by unescaped `\|` separators |
| StringTool.SerializedTokens | COM3D2.JustAnotherTranslator.Plugin/Utils/StringTool.cs:130-149 | the serialised text of a non-empty list, read back and split at the unescaped `\|`, gives one token group per item |
| StringTool.SerializedInjective | COM3D2.JustAnotherTranslator.Plugin/Utils/StringTool.cs:130-149 | two lists with the same serialisation are equal, and only the empty list gives null |
| StringExtensions.Expand | COM3D2.JustAnotherTranslator.Plugin/Utils/StringExtensions.cs:17-76 | the placeholder machine over `$name`, `${name}`, `$digits` and `\$`; `Template` is proved equal to it, and the placeholder lemmas below state what it emits |
| StringExtensions.Template | COM3D2.JustAnotherTranslator.Plugin/Utils/StringExtensions.cs:17-76 | the loop with its two builders and flags produces what the placeholder machine `Expand` produces from the start state; the lemmas below say what that is |
| StringExtensions.ExpandPlainText | COM3D2.JustAnotherTranslator.Plugin/Utils/StringExtensions.cs:62-72 | outside a placeholder, text without `$` (and not ending in a backslash before more text) is copied to the output unchanged and in order |
| StringExtensions.TemplateWithoutDollar | COM3D2.JustAnotherTranslator.Plugin/Utils/StringExtensions.cs:17-76 | a template containing no `$` is returned unchanged |
| StringExtensions.EscapedDollars | COM3D2.JustAnotherTranslator.Plugin/Utils/StringExtensions.cs:29-36 | when every `$` is preceded by a backslash, the result is the template with each `\$` read as `$`, so the template function is never consulted |
| StringExtensions.BracedName | COM3D2.JustAnotherTranslator.Plugin/Utils/StringExtensions.cs:41-57 | inside `${`, the name is collected up to `}`, which emits the function's value of the whole name and leaves the placeholder |
| StringExtensions.BracedPlaceholder | COM3D2.JustAnotherTranslator.Plugin/Utils/StringExtensions.cs:38-57 | `${name}` with a non-empty name free of `$`, `{` and `}` is replaced by `templateFunc(name)` |
| StringExtensions.NumberedDigits | COM3D2.JustAnotherTranslator.Plugin/Utils/StringExtensions.cs:62-72 | inside `$`, digits are collected, and the first ordinary non-digit emits the function's value and is then copied |
| StringExtensions.NumberedPlaceholder | COM3D2.JustAnotherTranslator.Plugin/Utils/StringExtensions.cs:38-72 | `$` + digits + an ordinary character (not `$`, `{`, `}`, `\`) becomes `templateFunc(digits)` followed by that character |
| StringExtensions.OpenNumberedAtEnd | COM3D2.JustAnotherTranslator.Plugin/Utils/StringExtensions.cs:24-75 | a `$digits` placeholder still open at the end contributes nothing |
| StringExtensions.OpenBracedAtEnd | COM3D2.JustAnotherTranslator.Plugin/Utils/StringExtensions.cs:24-75 | a `${` placeholder never closed contributes nothing |
| FileTool.NormalizedPath | COM3D2.JustAnotherTranslator.Plugin/Utils/FileTool.cs:82-83 | the normalised name has the same length and differs only where a slash of either kind stood, which becomes the platform separator |
| FileTool.IsZipPathUnsafe | COM3D2.JustAnotherTranslator.Plugin/Utils/FileTool.cs:76-97 | a null or empty entry name is unsafe; the lemmas below characterise the rest |
| FileTool.NormalizedTail | COM3D2.JustAnotherTranslator.Plugin/Utils/FileTool.cs:82-83 | normalising commutes with dropping the first character |
| FileTool.NormalizedStartsWithParent | COM3D2.JustAnotherTranslator.Plugin/Utils/FileTool.cs:82-86 | the normalised name starts with the parent-step symbol exactly when the raw name starts with `../` or `..\` |
| FileTool.ParentStepWithEitherSlash | COM3D2.JustAnotherTranslator.Plugin/Utils/FileTool.cs:82-87 | the normalised name contains the parent-step symbol exactly when the raw name contains `../` or `..\` |
| FileTool.ZipPathSafeIff | COM3D2.JustAnotherTranslator.Plugin/Utils/FileTool.cs:76-97 | a name is safe exactly when it is non-empty, has no parent step with either slash, does not start with a slash and is not drive-rooted |
| FileTool.TraversalIsUnsafe | COM3D2.JustAnotherTranslator.Plugin/Utils/FileTool.cs:86-87 | any name with a `../` or `..\` anywhere in it is rejected |
| FileTool.SlashChoiceIrrelevant | COM3D2.JustAnotherTranslator.Plugin/Utils/FileTool.cs:82-83 | two names that differ only in which slash they use get the same verdict |
| MaidCafeDlcLineBreakCommentFix.LineBreakCommentPrefix | COM3D2.JustAnotherTranslator.Plugin/Hooks/Text/MaidCafeDlcLineBreakCommentFix.cs:21-57 | the game's own method never runs, and a null or empty comment clears the label |
| MaidCafeDlcLineBreakCommentFix.SuperChatLineBreakCommentPrefix | COM3D2.JustAnotherTranslator.Plugin/Hooks/Text/MaidCafeDlcLineBreakCommentFix.cs:68-71 | the super-chat comment is handled exactly as the ordinary comment |
| MaidCafeDlcLineBreakCommentFix.ShortCommentUnchanged | COM3D2.JustAnotherTranslator.Plugin/Hooks/Text/MaidCafeDlcLineBreakCommentFix.cs:32-39 | a comment of at most 20 characters is shown unchanged |
| MaidCafeDlcLineBreakCommentFix.LongCommentSplit | COM3D2.JustAnotherTranslator.Plugin/Hooks/Text/MaidCafeDlcLineBreakCommentFix.cs:32-39 | a longer comment gains exactly one line feed, after its 20th character, and removing it gives the comment back |
| MaidCafeDlcLineBreakCommentFix.FirstLineLength | COM3D2.JustAnotherTranslator.Plugin/Hooks/Text/MaidCafeDlcLineBreakCommentFix.cs:32-39 | for a comment with no line feed, the first line shown is the whole comment when short, else its first 20 characters |
| XuatInterop.Interop.constructor | COM3D2.JustAnotherTranslator.Plugin/Utils/XUATInterop.cs:19-35 | starts uninitialised, with the default marker U+180E and no recorded text |
| XuatInterop.Interop.Init | COM3D2.JustAnotherTranslator.Plugin/Utils/XUATInterop.cs:41-115 | a second call succeeds without change; no XUAT assembly or no LanguageHelper type fails; otherwise it succeeds and adopts XUAT's marker exactly when that is non-empty; an exception resets the marker to U+180E, fails and leaves it uninitialised; the marker is never empty |
| XuatInterop.Interop.MarkTranslated | COM3D2.JustAnotherTranslator.Plugin/Utils/XUATInterop.cs:123-140 | blank text is returned untouched and not recorded; other text has its clean form recorded, so it is then reported as translated, and is returned with the marker appended unless skipped or already present |
| XuatInterop.Interop.IsJATTranslatedText | COM3D2.JustAnotherTranslator.Plugin/Utils/XUATInterop.cs:147-154 | non-blank text whose clean form is recorded; `MarkTranslated` ensures it holds of every non-blank text it marked |
| XuatInterop.Interop.IsContainsXuatSpicalMaker | COM3D2.JustAnotherTranslator.Plugin/Utils/XUATInterop.cs:177-180 | the text contains the marker; by `MarkedTextHasMarker` this holds of all marked output, so `IsTranslatablePrefix` blocks it |
| XuatInterop.Interop.IsTranslatablePrefix | COM3D2.JustAnotherTranslator.Plugin/Utils/XUATInterop.cs:189-226 | XUAT is blocked exactly when the text carries the marker, is an original of the translation dictionary, or is recorded output |
| XuatInterop.Interop.RecordedOutputBlocked | COM3D2.JustAnotherTranslator.Plugin/Utils/XUATInterop.cs:123-226 | once `MarkTranslated` has recorded a non-blank text, what it returned for that text, marked or with the mark skipped, is blocked from XUAT whatever the dictionary says |
| XuatInterop.Interop.OnSceneUnloaded | COM3D2.JustAnotherTranslator.Plugin/Utils/XUATInterop.cs:233-243 | every recorded text is forgotten; marker and initialisation stay |
| XuatInterop.Interop.Unload | COM3D2.JustAnotherTranslator.Plugin/Utils/XUATInterop.cs:249-265 | recorded texts are forgotten, the default marker restored and the interop uninitialised |
| XuatInterop.MarkedText | COM3D2.JustAnotherTranslator.Plugin/Utils/XUATInterop.cs:123-140 | what `MarkTranslated` returns; `MarkedTextHasMarker`, `MarkedTextUnchanged` and `MarkedTextIdempotent` prove it carries the marker, leaves blank or skipped text alone and is idempotent |
| XuatInterop.CleanText | COM3D2.JustAnotherTranslator.Plugin/Utils/XUATInterop.cs:128 | the recorded key, the normalised text without the marker; `MarkTranslated` records it and `RecordedOutputBlocked` proves recorded output is refused to XUAT |
| XuatInterop.MarkedTextHasMarker | COM3D2.JustAnotherTranslator.Plugin/Utils/XUATInterop.cs:131-137 | marked non-blank text always carries the marker |
| XuatInterop.MarkedTextUnchanged | COM3D2.JustAnotherTranslator.Plugin/Utils/XUATInterop.cs:125-131 | blank text and skipped marks come back unchanged |
| XuatInterop.MarkedTextIdempotent | COM3D2.JustAnotherTranslator.Plugin/Utils/XUATInterop.cs:123-140 | marking twice gives the same text as marking once |
| TranslationLoadResult.LoadResult.constructor | COM3D2.JustAnotherTranslator.Plugin/Loader/TranslationLoadResult.cs:14-34 | a fresh result has both tables empty and every counter zero |
| Upserts.UpsertSnoc | COM3D2.JustAnotherTranslator.Plugin/Loader/Processor/TxtTranslationFileProcessor.cs:102 | setting one more pair is one more dictionary assignment |
| Upserts.UpsertAppend | COM3D2.JustAnotherTranslator.Plugin/Loader/Processor/TxtTranslationFileProcessor.cs:25-38 | loading two runs of lines one after the other is loading their concatenation |
| Upserts.UpsertKeys | COM3D2.JustAnotherTranslator.Plugin/Loader/Processor/CsvTranslationFileProcessor.cs:79 | after loading, the keys are the old keys and the keys of the loaded pairs |
| Upserts.UpsertUntouched | COM3D2.JustAnotherTranslator.Plugin/Loader/Processor/CsvTranslationFileProcessor.cs:79 | a key no pair names keeps its presence and its value |
| Upserts.UpsertLastWins | COM3D2.JustAnotherTranslator.Plugin/Loader/Processor/CsvTranslationFileProcessor.cs:79 | the last pair naming a key decides its value |
| Upserts.UpsertValues | COM3D2.JustAnotherTranslator.Plugin/Loader/Processor/TxtTranslationFileProcessor.cs:93-102 | a property of every old value and every loaded value holds of every value afterwards |
| TxtTranslationFileProcessor.SplitFirstTab | COM3D2.JustAnotherTranslator.Plugin/Loader/Processor/TxtTranslationFileProcessor.cs:87-89 | no split exactly when the line has no tab; otherwise the line is the first part, a tab and the rest, and the first part has no tab |
| TxtTranslationFileProcessor.PlainPairs | COM3D2.JustAnotherTranslator.Plugin/Loader/Processor/TxtTranslationFileProcessor.cs:82-105 | each line contributes at most one plain pair |
| TxtTranslationFileProcessor.RegexPairs | COM3D2.JustAnotherTranslator.Plugin/Loader/Processor/TxtTranslationFileProcessor.cs:82-105 | each line contributes at most one pattern pair |
| TxtTranslationFileProcessor.LinesSnoc | COM3D2.JustAnotherTranslator.Plugin/Loader/Processor/TxtTranslationFileProcessor.cs:32-34 | one more line extends the plain pairs, pattern pairs and count by what that line contributes |
| TxtTranslationFileProcessor.LoadStep | COM3D2.JustAnotherTranslator.Plugin/Loader/Processor/TxtTranslationFileProcessor.cs:32-34 | given the tables and count for the first i lines and the effect of line i, the tables and count are those for the first i+1 lines |
| TxtTranslationFileProcessor.ProcessTranslationLine | COM3D2.JustAnotherTranslator.Plugin/Loader/Processor/TxtTranslationFileProcessor.cs:82-105 | reports success exactly when the line defines an entry; a plain entry sets its original in the table, a `$` entry appends a pattern pair, and the counters stay |
| TxtTranslationFileProcessor.ProcessLineOf | COM3D2.JustAnotherTranslator.Plugin/Loader/Processor/TxtTranslationFileProcessor.cs:32-34 | one pass of the read loop: the tables and count for the first i lines become those for the first i+1 |
| TxtTranslationFileProcessor.ProcessStream | COM3D2.JustAnotherTranslator.Plugin/Loader/Processor/TxtTranslationFileProcessor.cs:25-74 | the count is the number of accepted lines, the table is the old one updated with every plain pair in order, the pattern list gains the pattern pairs in order, counters stay |
| TxtTranslationFileProcessor.FirstTabSplits | COM3D2.JustAnotherTranslator.Plugin/Loader/Processor/TxtTranslationFileProcessor.cs:87 | only the first tab separates: the translation keeps any later tabs |
| TxtTranslationFileProcessor.ParseLine | COM3D2.JustAnotherTranslator.Plugin/Loader/Processor/TxtTranslationFileProcessor.cs:82-105 | the entry a line defines; `RejectedLines` and `AcceptedLine` prove which lines give none and which give their unescaped plain or pattern pair |
| TxtTranslationFileProcessor.RejectedLines | COM3D2.JustAnotherTranslator.Plugin/Loader/Processor/TxtTranslationFileProcessor.cs:84-96 | empty lines, comments, lines without a tab, and lines whose unescaped original or cleaned translation is empty define nothing |
| TxtTranslationFileProcessor.AcceptedLine | COM3D2.JustAnotherTranslator.Plugin/Loader/Processor/TxtTranslationFileProcessor.cs:92-102 | a well-formed line `a<TAB>b` defines the unescaped pair, plain or (after a leading `$`) a pattern without the `$` |
| TxtTranslationFileProcessor.PlainPairsUnmarked | COM3D2.JustAnotherTranslator.Plugin/Loader/Processor/TxtTranslationFileProcessor.cs:93-96 | every stored translation is non-empty and free of the U+180E marker |
| TxtTranslationFileProcessor.StoredTranslationsUnmarked | COM3D2.JustAnotherTranslator.Plugin/Loader/Processor/TxtTranslationFileProcessor.cs:93-102 | loading into a table without the marker leaves every translation without it |
| TxtTranslationFileProcessor.AcceptedCounts | COM3D2.JustAnotherTranslator.Plugin/Loader/Processor/TxtTranslationFileProcessor.cs:33-34 | the count equals the number of plain plus pattern entries stored |
| TxtTranslationFileProcessor.UndefinedOriginalUntouched | COM3D2.JustAnotherTranslator.Plugin/Loader/Processor/TxtTranslationFileProcessor.cs:98-102 | an original no line defines as a plain entry keeps its presence and translation, so `$` lines never touch the plain table |
| TxtTranslationFileProcessor.LaterLineWins | COM3D2.JustAnotherTranslator.Plugin/Loader/Processor/TxtTranslationFileProcessor.cs:102 | of several lines for the same original, the last one decides its translation |
| TxtTranslationFileProcessor.PlainPairsAppend | COM3D2.JustAnotherTranslator.Plugin/Loader/Processor/TxtTranslationFileProcessor.cs:32-34 | the plain pairs of two runs of lines are concatenated |
| TxtTranslationFileProcessor.RegexPairsAppend | COM3D2.JustAnotherTranslator.Plugin/Loader/Processor/TxtTranslationFileProcessor.cs:32-34 | the pattern pairs of two runs of lines are concatenated |
| TxtTranslationFileProcessor.PlainPairsAvoid | COM3D2.JustAnotherTranslator.Plugin/Loader/Processor/TxtTranslationFileProcessor.cs:98-102 | an original no line defines is the key of no stored pair |
| CsvTranslationFileProcessor.CsvPairs | COM3D2.JustAnotherTranslator.Plugin/Loader/Processor/CsvTranslationFileProcessor.cs:75-81 | each record contributes at most one pair |
| CsvTranslationFileProcessor.Usable | COM3D2.JustAnotherTranslator.Plugin/Loader/Processor/CsvTranslationFileProcessor.cs:75-81 | a record with non-empty term and translation; `RecordsSnoc` and `LoadedNonEmpty` prove exactly these are loaded |
| CsvTranslationFileProcessor.RecordsSnoc | COM3D2.JustAnotherTranslator.Plugin/Loader/Processor/CsvTranslationFileProcessor.cs:75-81 | one more record adds its pair exactly when its term and translation are non-empty |
| CsvTranslationFileProcessor.ProcessStream | COM3D2.JustAnotherTranslator.Plugin/Loader/Processor/CsvTranslationFileProcessor.cs:68-85 | the count is the number of usable records, the table is the old one updated with each usable record in order, and nothing else changes |
| CsvTranslationFileProcessor.OriginalIgnored | COM3D2.JustAnotherTranslator.Plugin/Loader/Processor/CsvTranslationFileProcessor.cs:90-95 | the `Original` column has no effect on what is loaded |
| CsvTranslationFileProcessor.CsvPairsAvoid | COM3D2.JustAnotherTranslator.Plugin/Loader/Processor/CsvTranslationFileProcessor.cs:77-79 | a term no usable record names is the key of no loaded pair |
| CsvTranslationFileProcessor.CsvPairsAppend | COM3D2.JustAnotherTranslator.Plugin/Loader/Processor/CsvTranslationFileProcessor.cs:75-81 | the pairs of two runs of records are concatenated |
| CsvTranslationFileProcessor.UndefinedTermUntouched | COM3D2.JustAnotherTranslator.Plugin/Loader/Processor/CsvTranslationFileProcessor.cs:77-79 | skipped records and other terms leave a term's presence and translation as they were |
| CsvTranslationFileProcessor.LaterRecordWins | COM3D2.JustAnotherTranslator.Plugin/Loader/Processor/CsvTranslationFileProcessor.cs:79 | the last usable record for a term decides its translation |
| CsvTranslationFileProcessor.LoadedNonEmpty | COM3D2.JustAnotherTranslator.Plugin/Loader/Processor/CsvTranslationFileProcessor.cs:77-78 | every loaded term and translation is non-empty, so an empty cell never overwrites a translation |
| TextTranslateManger.FallbackKey | COM3D2.JustAnotherTranslator.Plugin/Translator/TextTranslateManger.cs:232 | the second key tried; `FallbackKeyIsNormalizeText` proves it equals `NormalizeText` |
| TextTranslateManger.FallbackKeyIsNormalizeText | COM3D2.JustAnotherTranslator.Plugin/Translator/TextTranslateManger.cs:232 | the second key tried (upper-cased, CR/LF/TAB removed, trimmed) equals the normalised, upper-cased text |
| TextTranslateManger.Lookup | COM3D2.JustAnotherTranslator.Plugin/Translator/TextTranslateManger.cs:202-284 | anything found is a value of the table or the regular-expression result, and only once loading has completed and for non-empty text |
| TextTranslateManger.Manager.constructor | COM3D2.JustAnotherTranslator.Plugin/Translator/TextTranslateManger.cs:18-46 | starts uninitialised, unloaded, not loading, with empty tables and zero counters |
| TextTranslateManger.Manager.Init | COM3D2.JustAnotherTranslator.Plugin/Translator/TextTranslateManger.cs:48-147 | a second call changes nothing; the first forgets any loaded state, starts loading with zero progress, and leaves the tables alone |
| TextTranslateManger.Manager.Unload | COM3D2.JustAnotherTranslator.Plugin/Translator/TextTranslateManger.cs:97-123 | nothing happens before Init; otherwise both tables are emptied, loading stops, the manager is uninitialised, and progress is reset only if a load was running |
| TextTranslateManger.Manager.OnLoadingProgress | COM3D2.JustAnotherTranslator.Plugin/Translator/TextTranslateManger.cs:156-166 | the progress counters are taken over and nothing else changes |
| TextTranslateManger.Manager.OnLoadingComplete | COM3D2.JustAnotherTranslator.Plugin/Translator/TextTranslateManger.cs:176-193 | the loader's tables replace the current ones, translation is enabled and all files count as processed |
| TextTranslateManger.Manager.GetTranslateText | COM3D2.JustAnotherTranslator.Plugin/Translator/TextTranslateManger.cs:202-284 | reports success exactly when Lookup finds a translation; on failure the original comes back and nothing is recorded; on success the found text is marked and its clean form recorded |
| TextTranslateManger.ExactEntryFirst | COM3D2.JustAnotherTranslator.Plugin/Translator/TextTranslateManger.cs:222-227 | an exact entry wins over the fallback key and the regular expressions |
| TextTranslateManger.MarkedOutputNotRetranslated | COM3D2.JustAnotherTranslator.Plugin/Translator/TextTranslateManger.cs:212-215 | text the manager has marked ends with the marker, so it is never translated again |
| TextTranslateManger.FallbackFinds | COM3D2.JustAnotherTranslator.Plugin/Translator/TextTranslateManger.cs:229-238 | text that differs from an original only in case, CR/LF/TAB and surrounding whitespace finds its entry when the exact lookup misses |
| TextTranslateManger.Numeric | COM3D2.JustAnotherTranslator.Plugin/Translator/TextTranslateManger.cs:293-325 | the manager's own numeric rule; `IsNumeric` is proved equal to it, and `NumericWithoutDigits` and `ShortNumbersAgree` compare it with `StringTool.Numeric` |
| TextTranslateManger.IsNumeric | COM3D2.JustAnotherTranslator.Plugin/Translator/TextTranslateManger.cs:293-325 | the loop with its decimal-point flag answers Numeric: false for empty text, an optional leading minus then digits and at most one point up to eight characters, the decimal parser beyond |
| TextTranslateManger.NumericWithoutDigits | COM3D2.JustAnotherTranslator.Plugin/Translator/TextTranslateManger.cs:299-317 | unlike StringTool.IsNumeric, a lone `-`, `.` or `-,` counts as numeric and `+1` does not |
| TextTranslateManger.ShortNumbersAgree | COM3D2.JustAnotherTranslator.Plugin/Translator/TextTranslateManger.cs:299-317 | every short number of two or more characters without a plus sign that StringTool.IsNumeric accepts, this check accepts too |
| TextTranslator.TableSnoc | COM3D2.JustAnotherTranslator.Plugin/Translator/TextTranslator.cs:183-196 | one more file updates the plain table with its plain pairs and appends its pattern pairs |
| TextTranslator.FilesAreOneRun | COM3D2.JustAnotherTranslator.Plugin/Translator/TextTranslator.cs:183-196 | loading file by file equals loading all their lines in one run, so the later of two lines wins across files too |
| TextTranslator.Lookup | COM3D2.JustAnotherTranslator.Plugin/Translator/TextTranslator.cs:268-342 | anything found is a table value or the regular-expression result, and only for non-empty text that does not contain the marker |
| TextTranslator.Translator.constructor | COM3D2.JustAnotherTranslator.Plugin/Translator/TextTranslator.cs:23-45 | starts with empty tables, uninitialised, not loading, zero counters |
| TextTranslator.Translator.ProcessTranslationLine | COM3D2.JustAnotherTranslator.Plugin/Translator/TextTranslator.cs:242-264 | reports success exactly when the line defines an entry (the TXT processor's rules, keeping the marker character), and stores it in the plain table or appends it to the pattern list |
| TextTranslator.Translator.ProcessLineOf | COM3D2.JustAnotherTranslator.Plugin/Translator/TextTranslator.cs:227-229 | one pass of the read loop: the tables and count for the first i lines become those for the first i+1 |
| TextTranslator.Translator.ProcessTranslationFile | COM3D2.JustAnotherTranslator.Plugin/Translator/TextTranslator.cs:210-239 | the count is the number of accepted lines; the plain table is updated with every plain pair in order and the pattern list gains every pattern pair |
| TextTranslator.Translator.LoadFiles | COM3D2.JustAnotherTranslator.Plugin/Translator/TextTranslator.cs:183-196 | after the file loop the tables are those of loading each file in order |
| TextTranslator.Translator.LoadText | COM3D2.JustAnotherTranslator.Plugin/Translator/TextTranslator.cs:141-207 | the plain table starts afresh; a missing directory leaves it empty; otherwise it holds the files' entries, and the pattern list is never cleared and grows |
| TextTranslator.Translator.Init | COM3D2.JustAnotherTranslator.Plugin/Translator/TextTranslator.cs:47-107 | a second call changes nothing; otherwise asynchronous loading starts with zero progress, or the files are loaded at once |
| TextTranslator.Translator.Unload | COM3D2.JustAnotherTranslator.Plugin/Translator/TextTranslator.cs:66-86 | nothing happens before Init; otherwise the plain table is emptied, loading stops; the pattern list and the counters are kept |
| TextTranslator.Translator.OnLoadingProgress | COM3D2.JustAnotherTranslator.Plugin/Translator/TextTranslator.cs:110-120 | the progress counters are taken over and nothing else changes |
| TextTranslator.Translator.OnLoadingComplete | COM3D2.JustAnotherTranslator.Plugin/Translator/TextTranslator.cs:123-139 | the loader's tables replace the current ones and all files count as processed |
| TextTranslator.Translator.GetTranslateText | COM3D2.JustAnotherTranslator.Plugin/Translator/TextTranslator.cs:268-342 | reports success exactly when Lookup finds a translation; on failure the original comes back and nothing is recorded; on success the found text is marked and recorded |
| TextTranslator.AgreesWithManger | COM3D2.JustAnotherTranslator.Plugin/Translator/TextTranslator.cs:272-273 | whatever this translator finds, TextTranslateManger finds too from the same table, since its marker test is weaker |
| TextTranslator.InnerMarkerRefused | COM3D2.JustAnotherTranslator.Plugin/Translator/TextTranslator.cs:272-273 | text with the marker anywhere inside, not only at an end, is refused |
| TextTranslator.SameEntryWithoutMarker | COM3D2.JustAnotherTranslator.Plugin/Translator/TextTranslator.cs:251-252 | for lines whose translation lacks the marker character, this translator reads the same entry as the TXT processor |
| TextTranslator.RejectedByBoth | COM3D2.JustAnotherTranslator.Plugin/Translator/TextTranslator.cs:244-255 | a line this translator rejects, the TXT processor rejects too |
| UiTranslateManger.AfterFirstSlash | COM3D2.JustAnotherTranslator.Plugin/Manger/UITranslateManager.cs:291-294 | no suffix exactly when the term has no `/`; otherwise the term is a slash-free prefix, a `/` and the returned suffix |
| UiTranslateManger.AfterFirstSlashSplits | COM3D2.JustAnotherTranslator.Plugin/Manger/UITranslateManager.cs:291-294 | cutting at the first `/` gives back everything after it, later `/` included |
| UiTranslateManger.HandleTextTermTranslation | COM3D2.JustAnotherTranslator.Plugin/Manger/UITranslateManager.cs:273-306 | an empty term is never found; an exact hit wins; otherwise the suffix after the first `/` is tried once; a miss means neither is a key |
| UiTranslateManger.SegmentFallback | COM3D2.JustAnotherTranslator.Plugin/Manger/UITranslateManager.cs:291-302 | a term `prefix/rest` without its own entry is translated as `rest` |
| UiTranslateManger.OnlyFirstSegmentDropped | COM3D2.JustAnotherTranslator.Plugin/Manger/UITranslateManager.cs:291-302 | only the first segment is dropped: `a/b/c` is not found through `c` alone |
| UiTranslateManger.Rows | COM3D2.JustAnotherTranslator.Plugin/Manger/UITranslateManager.cs:189-195 | each buffered record becomes one record row, in order |
| UiTranslateManger.FileEntries | COM3D2.JustAnotherTranslator.Plugin/Manger/UITranslateManager.cs:177-196 | a dump file has at most one record per row |
| UiTranslateManger.FileEntriesAppend | COM3D2.JustAnotherTranslator.Plugin/Manger/UITranslateManager.cs:177 | appending rows to the file appends their records |
| UiTranslateManger.FileEntriesRows | COM3D2.JustAnotherTranslator.Plugin/Manger/UITranslateManager.cs:189-195 | the records written from a buffer read back as that buffer |
| UiTranslateManger.Terms | COM3D2.JustAnotherTranslator.Plugin/Manger/UITranslateManager.cs:227-232 | the terms of the dumped records, one per record, in order |
| UiTranslateManger.Flushed | COM3D2.JustAnotherTranslator.Plugin/Manger/UITranslateManager.cs:175-198 | a flush adds exactly the buffered records, in order, after the file's records |
| UiTranslateManger.FlushedShape | COM3D2.JustAnotherTranslator.Plugin/Manger/UITranslateManager.cs:175-187 | after a flush the file starts with the one header and holds only records after it |
| UiTranslateManger.DistinctSnoc | COM3D2.JustAnotherTranslator.Plugin/Manger/UITranslateManager.cs:222-234 | taking a term not yet remembered keeps the dumped terms distinct and remembered |
| UiTranslateManger.Manager.constructor | COM3D2.JustAnotherTranslator.Plugin/Manger/UITranslateManager.cs:31-54 | starts uninitialised, with empty tables, sets and buffer, an empty dump file and the header due |
| UiTranslateManger.Manager.LoadSpriteTextures | COM3D2.JustAnotherTranslator.Plugin/Manger/UITranslateManager.cs:497-544 | a directory that cannot be created leaves the table alone; otherwise the table is rebuilt from the scanned files, keyed by name without extension |
| UiTranslateManger.Manager.Init | COM3D2.JustAnotherTranslator.Plugin/Manger/UITranslateManager.cs:59-94 | a second call changes nothing; the first scans the sprites and marks the manager initialised |
| UiTranslateManger.Manager.Reload | COM3D2.JustAnotherTranslator.Plugin/Manger/UITranslateManager.cs:100-120 | refused before Init; otherwise the sprites are scanned again |
| UiTranslateManger.Manager.OnUiTextLoadComplete | COM3D2.JustAnotherTranslator.Plugin/Manger/UITranslateManager.cs:338-345 | the loaded table replaces the term table |
| UiTranslateManger.Manager.WriteRecords | COM3D2.JustAnotherTranslator.Plugin/Manger/UITranslateManager.cs:189-195 | the record loop writes each buffered entry, in order, after the rows already there |
| UiTranslateManger.Manager.FlushTermDumpBuffer | COM3D2.JustAnotherTranslator.Plugin/Manger/UITranslateManager.cs:163-204 | an empty buffer or a failed write changes nothing; a successful write adds the header only to an empty file, then the records, and empties the buffer; the dumped terms stay the same and the file keeps its shape |
| UiTranslateManger.Manager.DumpTerm | COM3D2.JustAnotherTranslator.Plugin/Manger/UITranslateManager.cs:212-243 | dumping off, a blank term or one already dumped changes nothing; otherwise the term is remembered and `{term, original, ""}` buffered, flushed once the threshold is reached; the dumped terms grow by exactly that term and stay distinct |
| UiTranslateManger.Manager.OnSceneUnloaded | COM3D2.JustAnotherTranslator.Plugin/Manger/UITranslateManager.cs:250-263 | the buffer is flushed when term dumping is on, and otherwise nothing changes |
| UiTranslateManger.Manager.Unload | COM3D2.JustAnotherTranslator.Plugin/Manger/UITranslateManager.cs:122-156 | refused before Init; otherwise term and sprite tables and both dumped sets are emptied, the buffer is flushed and the manager uninitialised |
| UiTranslateManger.Manager.GetSpriteTexturePath | COM3D2.JustAnotherTranslator.Plugin/Manger/UITranslateManager.cs:563-585 | a texture is read only from a path of the sprite table, and only for a name available once the marker is taken out |
| UiTranslateManger.RemoveMarker | COM3D2.JustAnotherTranslator.Plugin/Manger/UITranslateManager.cs:554 | taking out a one-character marker removes every occurrence of that character |
| UiTranslateManger.Manager.IsSpriteReplaceAvailable | COM3D2.JustAnotherTranslator.Plugin/Manger/UITranslateManager.cs:551-556 | a non-empty name whose marker-free form is a sprite key; `SpriteWithSingleCharMarker` characterises it for a one-character marker |
| UiTranslateManger.SpriteWithSingleCharMarker | COM3D2.JustAnotherTranslator.Plugin/Manger/UITranslateManager.cs:551-570 | with a one-character marker, a sprite is available exactly when its name without the marker is non-empty and a key, and its texture comes from that key's path |
| DotNetPath.GetFileNameWithoutExtension | COM3D2.JustAnotherTranslator.Plugin/Translator/UITranslateManager.cs:325 | the file name cut before its last `.`; `SpriteScanLookup` proves the scanned sprite table is keyed by it |
| UiTranslateManger.SpriteScanLookup | COM3D2.JustAnotherTranslator.Plugin/Manger/UITranslateManager.cs:526-531 | after a scan a name is a key exactly when some file has it as its name without extension, and it leads to the last such file |
| UiTranslateManager.Manager.constructor | COM3D2.JustAnotherTranslator.Plugin/Translator/UITranslateManager.cs:21-33 | starts uninitialised with empty tables and no texture cache |
| UiTranslateManager.Manager.LoadSpriteTextures | COM3D2.JustAnotherTranslator.Plugin/Translator/UITranslateManager.cs:294-340 | a directory that cannot be created leaves the table alone; otherwise the table is rebuilt from the scanned files, keyed by name without extension |
| UiTranslateManager.Manager.Init | COM3D2.JustAnotherTranslator.Plugin/Translator/UITranslateManager.cs:35-56 | a second call or a non-positive cache size changes nothing; otherwise a fresh empty cache of that size is made, the sprites are scanned and the manager initialised |
| UiTranslateManager.Manager.Unload | COM3D2.JustAnotherTranslator.Plugin/Translator/UITranslateManager.cs:58-78 | refused before Init; otherwise term table, texture cache and sprite table are emptied and the manager uninitialised |
| UiTranslateManager.Manager.OnUiTextLoadComplete | COM3D2.JustAnotherTranslator.Plugin/Translator/UITranslateManager.cs:149-161 | the loaded entries are merged in: loaded terms take their loaded translation, every other term keeps its own |
| UiTranslateManager.Manager.HandleTextTermTranslation | COM3D2.JustAnotherTranslator.Plugin/Translator/UITranslateManager.cs:87-115 | an empty term comes back unchanged; a term found by the first-segment rule comes back marked and recorded; any other term gives "" |
| UiTranslateManager.Manager.IsSpriteReplaceAvailable | COM3D2.JustAnotherTranslator.Plugin/Translator/UITranslateManager.cs:347-351 | a non-empty name that is a sprite key; `GetSpriteTexture` proves a name that fails it gives null and leaves the cache as it was |
| UiTranslateManager.Manager.GetSpriteTexture | COM3D2.JustAnotherTranslator.Plugin/Translator/UITranslateManager.cs:358-381 | unavailable sprites give null and touch nothing; a cached texture is returned without a read and becomes most recently used; otherwise the image is loaded and stored as by `Set`: every other sprite keeps its texture and place, except the least recently used one, evicted only when the cache was full; on a read failure null is returned and the cache is unchanged |
| TextureReplaceManger.NormalizeName | COM3D2.JustAnotherTranslator.Plugin/Translator/TextureReplaceManger.cs:103-105 | the looked-up name always has an extension and never ends in `.tex` |
| TextureReplaceManger.Renamed | COM3D2.JustAnotherTranslator.Plugin/Translator/TextureReplaceManger.cs:103 | `Replace(".tex", ".png")` for names ending in `.tex`; `RenamedFacts` and `ReplaceTexSuffix` prove the result ends in `.png` and other names are untouched |
| TextureReplaceManger.RenamedFacts | COM3D2.JustAnotherTranslator.Plugin/Translator/TextureReplaceManger.cs:103 | a `.tex` name becomes a name with extension `.png` that no longer ends in `.tex`; other names are untouched |
| TextureReplaceManger.ReplaceTexSuffix | COM3D2.JustAnotherTranslator.Plugin/Translator/TextureReplaceManger.cs:103 | the final `.tex` is always one of those replaced, since two occurrences of `.tex` cannot overlap |
| TextureReplaceManger.TexBecomesPng | COM3D2.JustAnotherTranslator.Plugin/Translator/TextureReplaceManger.cs:103 | a `.tex` name becomes a name ending in `.png`, with extension `.png` |
| TextureReplaceManger.PngExtension | COM3D2.JustAnotherTranslator.Plugin/Translator/TextureReplaceManger.cs:105 | appending `.png` gives the extension `.png`, and the name does not end in `.tex` |
| TextureReplaceManger.TexNameLookedUpAsPng | COM3D2.JustAnotherTranslator.Plugin/Translator/TextureReplaceManger.cs:103-105 | `a.tex` is looked up as `a.png`, with any `.tex` inside `a` replaced too |
| TextureReplaceManger.BareNameLookedUpAsPng | COM3D2.JustAnotherTranslator.Plugin/Translator/TextureReplaceManger.cs:105 | a name without extension is looked up with `.png` appended |
| TextureReplaceManger.OtherNamesUnchanged | COM3D2.JustAnotherTranslator.Plugin/Translator/TextureReplaceManger.cs:103-105 | a name with any other extension, `.png` included, is looked up as it is |
| TextureReplaceManger.NormalizeNameIdempotent | COM3D2.JustAnotherTranslator.Plugin/Translator/TextureReplaceManger.cs:103-105 | normalising twice is normalising once |
| TextureReplaceManger.Manager.constructor | COM3D2.JustAnotherTranslator.Plugin/Translator/TextureReplaceManger.cs:15-23 | starts uninitialised, with an empty path table and no cache |
| TextureReplaceManger.Manager.Init | COM3D2.JustAnotherTranslator.Plugin/Translator/TextureReplaceManger.cs:25-70 | a second call, a directory that cannot be created, or a non-positive cache size changes nothing; otherwise a fresh empty cache of that size is made and every scanned file is set in the path table by its file name, later files winning |
| TextureReplaceManger.Manager.CachePaths | COM3D2.JustAnotherTranslator.Plugin/Translator/TextureReplaceManger.cs:59-63 | the loop sets each file in the path table under its file name, in order |
| TextureReplaceManger.Manager.Unload | COM3D2.JustAnotherTranslator.Plugin/Translator/TextureReplaceManger.cs:72-87 | refused before Init; otherwise the cache is emptied and dropped and the path table stays |
| TextureReplaceManger.Manager.GetReplaceTexture | COM3D2.JustAnotherTranslator.Plugin/Translator/TextureReplaceManger.cs:96-137 | an empty name finds nothing; anything found has a file; a cached texture is returned without reading and becomes most recently used; otherwise the file is read and a successful read is stored as by `Set` (the other entries keep their values and order, and the least recently used one is evicted only from a full cache), while a failure leaves the cache as it was |
| TextureReplaceManger.Manager.ReadAndCache | COM3D2.JustAnotherTranslator.Plugin/Translator/TextureReplaceManger.cs:115-136 | a name without a file gives nothing; otherwise the read result is returned and, when it succeeded, stored as by `Set`: most recently used, every other entry kept in its place except the head of a full cache |
| TextureReplaceManger.Manager.IsTextureExist | COM3D2.JustAnotherTranslator.Plugin/Translator/TextureReplaceManger.cs:144-154 | a non-empty name whose normalised form has a file; `GetReplaceTexture` finds a texture only for such a name, and `PathTableAfterInit` says which names have one after `Init` |
| TextureReplaceManger.PathTableAfterInit | COM3D2.JustAnotherTranslator.Plugin/Translator/TextureReplaceManger.cs:59-63 | after the scan a name is a key exactly when it was one or some file has it as its file name, and it leads to the last such file |
| TextureReplacer.Replacer.constructor | COM3D2.JustAnotherTranslator.Plugin/Translator/TextureReplacer.cs:13-16 | starts uninitialised, with an empty path table and no cache |
| TextureReplacer.Replacer.Init | COM3D2.JustAnotherTranslator.Plugin/Translator/TextureReplacer.cs:18-63 | a second call, any directory that was not already present, or a non-positive cache size changes nothing; otherwise a fresh empty cache is made and every scanned file set by its file name |
| TextureReplacer.Replacer.CachePaths | COM3D2.JustAnotherTranslator.Plugin/Translator/TextureReplacer.cs:53-57 | the loop sets each file in the path table under its file name, in order |
| TextureReplacer.Replacer.Unload | COM3D2.JustAnotherTranslator.Plugin/Translator/TextureReplacer.cs:65-80 | refused before Init; otherwise the cache is emptied and dropped and the path table stays |
| TextureReplacer.Replacer.IsTextureExist | COM3D2.JustAnotherTranslator.Plugin/Translator/TextureReplacer.cs:125-135 | a non-empty name whose normalised form has a file; `GetReplaceTexture` finds a texture only for such a name |
| TextureReplacer.Replacer.GetReplaceTexture | COM3D2.JustAnotherTranslator.Plugin/Translator/TextureReplacer.cs:82-123 | the same lookup as TextureReplaceManger: empty names find nothing, cache hits need no read, a successful read is stored as by `Set` with the other entries kept except the head of a full cache, and a failed read changes nothing |
| TextureReplacer.Replacer.ReadAndCache | COM3D2.JustAnotherTranslator.Plugin/Translator/TextureReplacer.cs:101-122 | a name without a file gives nothing; otherwise the read result is returned and, when it succeeded, stored as by `Set`, the other entries kept except the head of a full cache; a failed read changes nothing |
| LyricManger.ParseLineShapeWith | COM3D2.JustAnotherTranslator.Plugin/Translator/LyricManger.cs:145-181 | for any set of trimmed characters: blank lines and lines without exactly four fields give no entry, and an entry's texts are trimmed and comma-free |
| LyricManger.ParseLine | COM3D2.JustAnotherTranslator.Plugin/Translator/LyricManger.cs:145-181 | the entry of one lyric line; `ParseLineShape`, `LineRoundTrip` and `CommaInLyricSkipsLine` prove what it accepts, that written entries read back, and that a comma in the lyric drops the line |
| LyricManger.ParseLineShape | COM3D2.JustAnotherTranslator.Plugin/Translator/LyricManger.cs:145-181 | blank lines and lines without exactly four comma fields are skipped; the texts of an entry are trimmed and hold no comma |
| LyricManger.SplitPiecesFree | COM3D2.JustAnotherTranslator.Plugin/Translator/LyricManger.cs:151 | no field of a split contains the separator |
| LyricManger.Present | COM3D2.JustAnotherTranslator.Plugin/Translator/LyricManger.cs:130-181 | at most one entry per line |
| LyricManger.PresentSnoc | COM3D2.JustAnotherTranslator.Plugin/Translator/LyricManger.cs:175-181 | one more line adds its entry, if it has one, at the end |
| LyricManger.PresentAppend | COM3D2.JustAnotherTranslator.Plugin/Translator/LyricManger.cs:145-185 | the entries of two runs of lines are those of the first followed by those of the second |
| LyricManger.Parsed | COM3D2.JustAnotherTranslator.Plugin/Translator/LyricManger.cs:145-185 | each line is parsed on its own, by the same rule |
| LyricManger.ParsedAppend | COM3D2.JustAnotherTranslator.Plugin/Translator/LyricManger.cs:145-185 | parsing line by line commutes with joining runs of lines |
| LyricManger.LyricEntries | COM3D2.JustAnotherTranslator.Plugin/Translator/LyricManger.cs:130-181 | accepted entries keep file order, one per accepted line, so there are at most as many entries as lines |
| LyricManger.LyricEntriesAppend | COM3D2.JustAnotherTranslator.Plugin/Translator/LyricManger.cs:111-185 | the entries of two runs of lines are those of the first followed by those of the second |
| LyricManger.EntriesOfNoLines | COM3D2.JustAnotherTranslator.Plugin/Translator/LyricManger.cs:95 | no lines give no entries |
| LyricManger.LyricEntriesSnoc | COM3D2.JustAnotherTranslator.Plugin/Translator/LyricManger.cs:145-185 | reading line i after the lines before it adds that line's entries at the end |
| LyricManger.TakeOneMore | COM3D2.JustAnotherTranslator.Plugin/Translator/LyricManger.cs:145-147 | a prefix one longer ends with the next line |
| LyricManger.EntriesOfOneLine | COM3D2.JustAnotherTranslator.Plugin/Translator/LyricManger.cs:145-181 | a single line gives the entry the line parser makes of it, if any |
| LyricManger.PresentParsedOne | COM3D2.JustAnotherTranslator.Plugin/Translator/LyricManger.cs:145-181 | one parsed line contributes its entry if present |
| LyricManger.LineRoundTripWith | COM3D2.JustAnotherTranslator.Plugin/Translator/LyricManger.cs:148-181 | for any trimmed-character set without the comma, four comma-free trimmed fields with non-empty parsable times are read back field for field |
| LyricManger.SplitFour | COM3D2.JustAnotherTranslator.Plugin/Translator/LyricManger.cs:151 | four comma-free fields joined by commas split back into themselves |
| LyricManger.FourFields | COM3D2.JustAnotherTranslator.Plugin/Translator/LyricManger.cs:148-181 | a trimmed non-empty line splitting into four trimmed fields with parsable times gives the entry of those fields |
| LyricManger.TrimmedLineFields | COM3D2.JustAnotherTranslator.Plugin/Translator/LyricManger.cs:148-151 | an already trimmed non-empty line is parsed from its own comma fields |
| LyricManger.FourTrimmedFields | COM3D2.JustAnotherTranslator.Plugin/Translator/LyricManger.cs:160-181 | four trimmed fields with non-empty parsable times give the entry made of them |
| LyricManger.CommaNotWhiteSpace | COM3D2.JustAnotherTranslator.Plugin/Translator/LyricManger.cs:148 | trimming never removes a comma |
| LyricManger.LineRoundTrip | COM3D2.JustAnotherTranslator.Plugin/Translator/LyricManger.cs:145-181 | a line written from four comma-free trimmed fields, times non-empty and parsable, is read back field for field |
| LyricManger.TrimmedLine | COM3D2.JustAnotherTranslator.Plugin/Translator/LyricManger.cs:148 | a line whose first field is trimmed and non-empty and whose last field is trimmed is already trimmed |
| LyricManger.EndsNotTrimmed | COM3D2.JustAnotherTranslator.Plugin/Translator/LyricManger.cs:148 | a text whose first and last characters are not white space is its own trim |
| LyricManger.CommaInLyricSkipsLineWith | COM3D2.JustAnotherTranslator.Plugin/Translator/LyricManger.cs:151-158 | for any trimmed-character set without the comma, a lyric holding a comma makes five fields and the line is skipped |
| LyricManger.CommaInLyricSkipsLine | COM3D2.JustAnotherTranslator.Plugin/Translator/LyricManger.cs:151-158 | splitting is at every comma with no quoting, so a lyric holding a comma makes its line invalid |
| LyricManger.Manager.constructor | COM3D2.JustAnotherTranslator.Plugin/Translator/LyricManger.cs:25 | the lyric list starts empty |
| LyricManger.Manager.LoadSubtitle | COM3D2.JustAnotherTranslator.Plugin/Translator/LyricManger.cs:93-186 | the list is cleared first and stays empty for a missing file; otherwise it holds the entries of the accepted lines in file order, the first line (a possible header) under the same rule as the others |
| LyricManger.Manager.KeepLine | COM3D2.JustAnotherTranslator.Plugin/Translator/LyricManger.cs:111-185 | line i's entry, if any, is added after the entries of the lines before it |
| LyricManger.ReadFirstEntry | COM3D2.JustAnotherTranslator.Plugin/Translator/LyricManger.cs:111-141 | the first line's own reading code accepts exactly what the shared line rule accepts, giving the same entry |
| LyricManger.ReadEntry | COM3D2.JustAnotherTranslator.Plugin/Translator/LyricManger.cs:145-184 | each later line is skipped when blank, when it has other than four fields, when a time is empty or does not parse; otherwise it gives the shared rule's entry |
| LyricManger.HeaderSkipped | COM3D2.JustAnotherTranslator.Plugin/Translator/LyricManger.cs:111-141 | a first line that is not a valid entry, such as a header, adds nothing |
| SubtitleComponentManager.SpeakerId | COM3D2.JustAnotherTranslator.Plugin/Subtitle/SubtitleComponentManager.cs:30-35 | `Subtitle_JAT_Subtitle_For_{name}_{counter}`; `SpeakerIdInjective` and `DefaultIdNotSpeakerId` prove different pairs give different ids and none is the default id |
| SubtitleComponentManager.SpeakerIdInjective | COM3D2.JustAnotherTranslator.Plugin/Subtitle/SubtitleComponentManager.cs:30-35 | two per-speaker ids made as `Subtitle_JAT_Subtitle_For_{name}_{counter}` are equal only for the same name and the same counter value |
| SubtitleComponentManager.LastSeparator | COM3D2.JustAnotherTranslator.Plugin/Subtitle/SubtitleComponentManager.cs:33 | two texts each split after their last `_` into a head ending in `_` and a tail free of `_` are equal only piece for piece, which is why the counter after the last `_` can be read back from an id |
| SubtitleComponentManager.NoSeparatorInNumber | COM3D2.JustAnotherTranslator.Plugin/Subtitle/SubtitleComponentManager.cs:33 | the printed counter never contains `_`, even when negative |
| SubtitleComponentManager.DefaultIdNotSpeakerId | COM3D2.JustAnotherTranslator.Plugin/Subtitle/SubtitleComponentManager.cs:27-33 | the id shared by speakers without a name, `Subtitle_JAT_DefaultSubtitle`, is never a per-speaker id |
| SubtitleComponentManager.Subtitle.constructor | COM3D2.JustAnotherTranslator.Plugin/Subtitle/SubtitleComponent.cs:43-45 | `Initialize`: the component holds the configuration it was given |
| SubtitleComponentManager.Subtitle.UpdateConfig | COM3D2.JustAnotherTranslator.Plugin/Subtitle/SubtitleComponent.cs:111-141 | a non-null configuration replaces the held one, whichever strategy branch is taken |
| SubtitleComponentManager.Manager.constructor | COM3D2.JustAnotherTranslator.Plugin/Subtitle/SubtitleComponentManager.cs:12-18 | the registry and the speaker table start empty and the counter at 0, which satisfies the id invariant |
| SubtitleComponentManager.Manager.GetSpeakerSubtitleId | COM3D2.JustAnotherTranslator.Plugin/Subtitle/SubtitleComponentManager.cs:25-38 | a speaker without a name gets the default id and nothing changes; a known speaker gets its stored id again and nothing changes; a new speaker gets the id made from its name and the current counter, which is stored and the counter advances by one; the invariant that every stored id was made from its own speaker and a distinct counter value is kept |
| SubtitleComponentManager.Manager.DistinctSpeakersDistinctIds | COM3D2.JustAnotherTranslator.Plugin/Subtitle/SubtitleComponentManager.cs:25-38 | under the invariant, no speaker holds the default id and two different speakers never hold the same id, so their floating subtitles never share a component |
| SubtitleComponentManager.Manager.CreateSubtitle | COM3D2.JustAnotherTranslator.Plugin/Subtitle/SubtitleComponentManager.cs:46-71 | a component already registered under the id is replaced; the new component holds the given configuration, or the current one when none is given, and is registered under the id; every other id keeps its component |
| SubtitleComponentManager.Manager.GetSubtitle | COM3D2.JustAnotherTranslator.Plugin/Subtitle/SubtitleComponentManager.cs:78-84 | the component registered under the id exactly when there is one, and null otherwise |
| SubtitleComponentManager.Manager.GetOrCreateSubtitle | COM3D2.JustAnotherTranslator.Plugin/Subtitle/SubtitleComponentManager.cs:92-100 | a registered component is returned with the registry unchanged and takes the new configuration when one is given; otherwise a new component is created and registered as by `CreateSubtitle` |
| SubtitleComponentManager.Manager.DestroySubtitle | COM3D2.JustAnotherTranslator.Plugin/Subtitle/SubtitleComponentManager.cs:249-256 | exactly that id leaves the registry; an unknown id changes nothing |
| SubtitleComponentManager.Manager.DestroyAllSubtitles | COM3D2.JustAnotherTranslator.Plugin/Subtitle/SubtitleComponentManager.cs:261-266 | the registry is empty afterwards |
| SubtitleConfig.ConvertTextAnchorEnum | COM3D2.JustAnotherTranslator.Plugin/Subtitle/SubtitleConfig.cs:302-317 | each of the nine declared anchor values becomes the Unity anchor of the same name, and any other value becomes the middle centre |
| SubtitleConfig.ConvertTextAnchorEnumInjective | COM3D2.JustAnotherTranslator.Plugin/Subtitle/SubtitleConfig.cs:302-317 | two different declared anchor values never become the same Unity anchor |
| SubtitleConfig.GetSubtitleTypeConfig | COM3D2.JustAnotherTranslator.Plugin/Subtitle/SubtitleConfig.cs:203-218 | the per-type setting chosen; `SubtitleTypeConfigSelects` proves each type selects its own setting and other values the default |
| SubtitleConfig.SubtitleTypeConfigSelects | COM3D2.JustAnotherTranslator.Plugin/Subtitle/SubtitleConfig.cs:203-218 | the setting chosen for Base, Yotogi, Adv and Lyric is the one in that position among the four, and any other type value gets the default |
| SubtitleManager.Manager.constructor | COM3D2.JustAnotherTranslator.Plugin/Translator/SubtitleManager.cs:19-34 | not initialised, no coroutine and no voice text registered, no current speaker or voice id, subtitle type Base |
| SubtitleManager.Manager.Init | COM3D2.JustAnotherTranslator.Plugin/Translator/SubtitleManager.cs:47-61 | the manager is initialised afterwards, and a second call changes nothing |
| SubtitleManager.Manager.Unload | COM3D2.JustAnotherTranslator.Plugin/Translator/SubtitleManager.cs:66-80 | before `Init` nothing changes; otherwise every resource is cleaned as by `CleanResources`; either way the manager ends uninitialised |
| SubtitleManager.Manager.OnSceneChange | COM3D2.JustAnotherTranslator.Plugin/Translator/SubtitleManager.cs:85-90 | a scene change cleans every resource |
| SubtitleManager.Manager.CleanResources | COM3D2.JustAnotherTranslator.Plugin/Translator/SubtitleManager.cs:151-165 | no maid coroutine stays registered, the voice-text map is empty, and the current speaker and voice id are null; the subtitle type is not touched |
| SubtitleManager.Manager.CleanupAllMaidMonitorCoroutines | COM3D2.JustAnotherTranslator.Plugin/Translator/SubtitleManager.cs:217-226 | no maid coroutine stays registered |
| SubtitleManager.Manager.StartMaidMonitoringCoroutine | COM3D2.JustAnotherTranslator.Plugin/Translator/SubtitleManager.cs:171-195 | a null maid changes nothing; during the Maid Cafe streaming part the maid's entry is removed instead; a maid already registered under a non-empty id keeps it; any other maid is registered under the new coroutine's id; no other maid's entry changes |
| SubtitleManager.Manager.StopMaidMonitoringCoroutine | COM3D2.JustAnotherTranslator.Plugin/Translator/SubtitleManager.cs:200-211 | a null maid changes nothing; otherwise exactly that maid's entry is gone afterwards |
| SubtitleManager.Manager.SetVoiceTextMapping | COM3D2.JustAnotherTranslator.Plugin/Translator/SubtitleManager.cs:358-367 | a null or empty voice id or text changes nothing; otherwise the voice id maps to the text and every other entry stays |
| SubtitleManager.Manager.SetVoiceTextMappingForCurrentVoice | COM3D2.JustAnotherTranslator.Plugin/Translator/SubtitleManager.cs:374-383 | the same, keyed by the current voice id, and nothing changes while that is null or empty |
| SubtitleManager.Manager.SetCurrentVoiceId | COM3D2.JustAnotherTranslator.Plugin/Translator/SubtitleManager.cs:388-391 | the current voice id is the given one |
| SubtitleManager.Manager.SetCurrentSpeaker | COM3D2.JustAnotherTranslator.Plugin/Translator/SubtitleManager.cs:396-399 | the current speaker is the given maid |
| SubtitleManager.Manager.SetSubtitleType | COM3D2.JustAnotherTranslator.Plugin/Translator/SubtitleManager.cs:405-408 | the subtitle type is the given one |
| LyricCsvConvert.DetectCsvFormat | Script/lyric_csv_format_convert_English.py:14-66 | the layout sniffed from the first row; `DetectCsvFormatRules` states its rules one by one |
| LyricCsvConvert.DetectCsvFormatRules | Script/lyric_csv_format_convert_English.py:14-66 | an empty first row is unknown; an `ID` header with a Japanese column name is always `format2`; `format2` is reported only for such a header or a four-cell row with an integer id; `format1` only for a row of at least three cells that is no `format2` header; a row under three cells is unknown; forwards, a non-`format2` alias header gives `format1`, failing that a four-cell row with an integer id gives `format2`, failing that a row whose first two cells are numbers gives `format1` |
| LyricCsvConvert.Finish | Script/lyric_csv_format_convert_English.py:136-157 | a record is produced exactly when both times parse as numbers and the lyric is not empty, and it holds the three texts and an empty translation |
| LyricCsvConvert.ConvertFormat1Row | Script/lyric_csv_format_convert_English.py:124-157 | the record of a `start,end,lyric` row; `ConvertFormat1RowFacts` proves exactly when it gives one |
| LyricCsvConvert.ConvertFormat1RowFacts | Script/lyric_csv_format_convert_English.py:124-157 | a `start,end,lyric` row yields a record exactly when it has three cells, no stripped cell is a header alias, both stripped times are numbers and the stripped lyric is not empty; the record holds the stripped cells and an empty translation |
| LyricCsvConvert.ConvertRow | Script/lyric_csv_format_convert_English.py:94-157 | rows under three cells are skipped; in a `format2` file a row yields a record exactly when it has four cells, no header name, an integer id, two number times and a lyric, and the record takes the stripped columns 1 to 3; any other file, an unknown one included, is read as `start,end,lyric` |
| LyricCsvConvert.ConvertRowWellFormed | Script/lyric_csv_format_convert_English.py:136-157 | every record a row yields has number times, a non-empty lyric and an empty translation |
| LyricCsvConvert.Records | Script/lyric_csv_format_convert_English.py:94-157 | a file yields at most one record per row |
| LyricCsvConvert.RecordsSnoc | Script/lyric_csv_format_convert_English.py:94-157 | one more row adds its record at the end, or nothing when it yields none |
| LyricCsvConvert.RecordsAppend | Script/lyric_csv_format_convert_English.py:94-157 | the records of two runs of rows are those of the first run followed by those of the second, so rows are converted independently and in order |
| LyricCsvConvert.RecordsWellFormed | Script/lyric_csv_format_convert_English.py:94-157 | every record of a file is well formed |
| LyricCsvConvert.RecordRows | Script/lyric_csv_format_convert_English.py:160-164 | each record is written as one row of its four fields in column order |
| LyricCsvConvert.Written | Script/lyric_csv_format_convert_English.py:159-171 | a failing write returns -1; otherwise the record count is returned and the output holds the header and the records in order, or nothing when there are none |
| LyricCsvConvert.ConvertLyricCsv | Script/lyric_csv_format_convert_English.py:68-171 | an unreadable input returns -1; otherwise the layout is sniffed from the first row, the rows converted in order and the outcome is that of writing exactly those records |
| LyricCsvConvert.ConvertLyricCsvSimplified | script/lyric_csv_format_convert.py:14-85 | the older converter: an unreadable input returns -1; otherwise every row is read as `start,end,lyric` with the simplified Chinese header names and the outcome is that of writing exactly those records |
| LyricCsvConvert.Format1Records | script/lyric_csv_format_convert.py:34-71 | the older converter yields at most one record per row |
| LyricCsvConvert.Format1RowWellFormed | script/lyric_csv_format_convert.py:50-71 | every record of the older converter has number times, a non-empty lyric and an empty translation |
| LyricCsvConvert.Format1RecordsWellFormed | script/lyric_csv_format_convert.py:34-71 | every record of a file read by the older converter is well formed |
| LyricCsvConvert.StartTimeStripped | Script/lyric_csv_format_convert_English.py:162 | the first written column name has no surrounding white space |
| LyricCsvConvert.StartTimeHasNoId | Script/lyric_csv_format_convert_English.py:162 | the first written column name holds no `ID` |
| LyricCsvConvert.OutputHeaderNotFormat2 | Script/lyric_csv_format_convert_English.py:33-36 | the written header is not an `ID,start,end,lyric` header |
| LyricCsvConvert.OutputHeaderAlias | Script/lyric_csv_format_convert_English.py:39-43 | the first written column name is a start-time header alias |
| LyricCsvConvert.OutputHeaderDetected | Script/lyric_csv_format_convert_English.py:14-66 | a written file is sniffed as `start,end,lyric` |
| LyricCsvConvert.OutputHeaderSkipped | Script/lyric_csv_format_convert_English.py:130-134 | the written header row itself yields no record |
| LyricCsvConvert.ConvertRowRereadable | Script/lyric_csv_format_convert_English.py:124-157 | outside `format2` files every record holds stripped cells and no header alias, so it is read back unchanged |
| LyricCsvConvert.RecordsRereadable | Script/lyric_csv_format_convert_English.py:94-157 | outside `format2` files every record of a file can be read back unchanged |
| LyricCsvConvert.RecordRowRoundTrip | Script/lyric_csv_format_convert_English.py:124-164 | the row written for a re-readable record converts back to that record |
| LyricCsvConvert.RecordsSnocSome | Script/lyric_csv_format_convert_English.py:94-157 | one more row that yields a record adds it at the end |
| LyricCsvConvert.RecordRowsRoundTrip | Script/lyric_csv_format_convert_English.py:124-164 | the rows written for re-readable records convert back to exactly those records, in order |
| LyricCsvConvert.RecordsConsNone | Script/lyric_csv_format_convert_English.py:94-157 | a leading row that yields no record, such as the header, adds nothing |
| LyricCsvConvert.ReconvertOutput | Script/lyric_csv_format_convert_English.py:68-171 | converting a written file of re-readable records returns the same count and writes the same file |
| LyricCsvConvert.ConvertIdempotent | Script/lyric_csv_format_convert_English.py:68-171 | a file not sniffed as `ID,start,end,lyric`, once converted, converts again to the same output and count |
| TermCsvConvert.LastIndexOf | Script/ui_csv_format_convert_English.py:34-51 | -1 exactly when the header lacks the name; otherwise a position holding the name with no later position holding it, the column a `DictReader` row keeps when names repeat |
| TermCsvConvert.Column | Script/ui_csv_format_convert_English.py:49-51 | `row.get(name, '')` of a `DictReader` row; `LastIndexOf`, `ColumnOfUniqueName` and `ColumnOfMissingName` prove which cell it reads |
| TermCsvConvert.ColumnOfUniqueName | Script/ui_csv_format_convert_English.py:49-51 | a column name that occurs once reads the row's cell in that column, or nothing when the row is too short |
| TermCsvConvert.ColumnOfMissingName | Script/ui_csv_format_convert_English.py:49-51 | `row.get(name, '')` for a name the header lacks reads nothing |
| TermCsvConvert.FirstEndingWithKey | Script/ui_csv_format_convert_English.py:44-47 | the name found is a header name ending in `Key`; none is found exactly when no header name ends in `Key` |
| TermCsvConvert.FirstEndingWithKeyIsFirst | Script/ui_csv_format_convert_English.py:44-47 | when some header name ends in `Key`, the search finds one at or before it, and no earlier name ends in `Key` |
| TermCsvConvert.KeyField | Script/ui_csv_format_convert_English.py:41-47 | the key column is `Key` whenever the header has it; any other choice is a header name ending in `Key` |
| TermCsvConvert.KeyColumnNeverRaises | Script/ui_csv_format_convert_English.py:42-47 | a header with a name ending in `Key` never lets the search reach the unnamed surplus cells, so no row raises |
| TermCsvConvert.ConvertRow | Script/ui_csv_format_convert_English.py:41-67 | a row yields no record exactly when its key cell is empty; a record's original is the `Japanese` cell and its translation the `English` cell; its term is the key, after the file stem and `/` when the prefix is asked for |
| TermCsvConvert.Records | Script/ui_csv_format_convert_English.py:39-67 | a file yields at most one record per data row |
| TermCsvConvert.RecordsSnoc | Script/ui_csv_format_convert_English.py:39-67 | one more data row adds its record at the end, or nothing when its key is empty |
| TermCsvConvert.RecordsHaveKeys | Script/ui_csv_format_convert_English.py:54-58 | every record's term is a non-empty key, or with the prefix the stem and `/` followed by a non-empty key |
| TermCsvConvert.PrefixedTermFindsKey | Script/ui_csv_format_convert_English.py:58 | a prefixed term missing from the UI term table is translated as its key by the segment fallback of the UI manager, when the stem holds no `/` |
| TermCsvConvert.RecordRows | Script/ui_csv_format_convert_English.py:70-74 | each record is written as one row of term, original and translation |
| TermCsvConvert.Written | Script/ui_csv_format_convert_English.py:70-81 | a failing write returns -1; otherwise the record count is returned and the output holds the header and the records in order, or nothing when there are none |
| TermCsvConvert.ConvertSingleCsv | Script/ui_csv_format_convert_English.py:14-81 | an unreadable input returns -1; an empty file writes nothing and returns 0; a file with a row on which the key search fails returns -1; otherwise the first row names the columns and the outcome is that of writing the records of the other rows, in order |
| Text.ReplaceChar | COM3D2.JustAnotherTranslator.Plugin/Utils/FileTool.cs:82-83 | `Replace(char, char)` keeps the length and turns exactly the occurrences of one character into the other |
| Text.RemoveChar | COM3D2.JustAnotherTranslator.Plugin/Utils/StringTool.cs:29-30 | removing a character leaves none of it and every other character of the text, and no more |
| Text.ReplaceByNothing | COM3D2.JustAnotherTranslator.Plugin/Utils/StringTool.cs:29-30 | `Replace(c, "")` of a one-character pattern removes every occurrence of that character |
| Text.TrimShape | COM3D2.JustAnotherTranslator.Plugin/Utils/StringTool.cs:30 | a trimmed text neither starts nor ends with a trimmed character |
| Text.TrimIdempotent | COM3D2.JustAnotherTranslator.Plugin/Utils/StringTool.cs:30 | trimming a trimmed text changes nothing |
| Text.TrimChars | COM3D2.JustAnotherTranslator.Plugin/Translator/LyricManger.cs:160-163 | every character of a trimmed text comes from the text |
| Text.TrimEmpty | COM3D2.JustAnotherTranslator.Plugin/Utils/StringTool.cs:95 | a text trims to nothing exactly when all its characters are trimmed characters |
| Text.SplitJoin | COM3D2.JustAnotherTranslator.Plugin/Translator/LyricManger.cs:151 | splitting a join at a separator no item contains gives the items back |
| Text.IntToStringInjective | COM3D2.JustAnotherTranslator.Plugin/Subtitle/SubtitleComponentManager.cs:33 | two different integers are never printed as the same text |
| DotNetPath.GetFileName | COM3D2.JustAnotherTranslator.Plugin/Translator/TextureReplaceManger.cs:61 | `Path.GetFileName` is no longer than the path, holds no separator, and follows a separator whenever it is shorter than the path |
| DotNetPath.FileNameIsTail | COM3D2.JustAnotherTranslator.Plugin/Translator/TextureReplaceManger.cs:61 | the file name ends the path |
| DotNetPath.GetExtension | COM3D2.JustAnotherTranslator.Plugin/Translator/TextureReplaceManger.cs:105 | `Path.GetExtension`; `ExtensionNonEmpty`, `ExtensionEmpty` and `ExtensionOfSuffix` prove when it is empty and what it is otherwise |
| DotNetPath.IsPathRooted | COM3D2.JustAnotherTranslator.Plugin/Utils/FileTool.cs:90 | `Path.IsPathRooted` for Windows paths: a leading `\` or `/`, or a drive colon; `FileTool.ZipPathSafeIff` uses it in the full safety condition |
| DotNetPath.ExtensionNonEmpty | COM3D2.JustAnotherTranslator.Plugin/Translator/TextureReplaceManger.cs:105 | a non-empty `Path.GetExtension` starts with the name's last `.`, has a character after it, ends the path, and follows the name without extension to make the file name |
| DotNetPath.ExtensionEmpty | COM3D2.JustAnotherTranslator.Plugin/Translator/TextureReplaceManger.cs:105 | an empty extension means the file name has no `.` or ends with one |
| DotNetPath.ExtensionOfSuffix | COM3D2.JustAnotherTranslator.Plugin/Translator/TextureReplaceManger.cs:105 | a path ending in `.` and at least one character that is neither a `.` nor a separator has exactly that extension, so a name given `.png` gets `.png` |

## Left out

- Threads, coroutines, Harmony patching, BepInEx configuration, file and archive I/O, Unity objects and logging are outside the model. What they deliver (file lines, parsed records, directory listings, texture bytes, a failing write) is a parameter of the member that receives it.
- Floating-point values and their parsing: lyric times are of a type parameter, and `float.TryParse`, `int()`, `float()` and `decimal.TryParse` are parameters. Loading-progress fractions and elapsed times are left out.
- Regular expressions: the regex tables are kept as lists of (pattern, template) pairs, and the answer of the regex pass of `GetTranslateText` is the parameter `regexMatch`.
- TxtTranslationFileProcessor.ProcessTranslationLine: a `$` line whose pattern does not compile is stored like any other; in the plugin `new Regex` throws there and the line stores nothing.
- TxtTranslationFileProcessor.ProcessStream: an invalid `$` pattern does not stop the model; in the plugin the exception ends the stream with the lines before it already stored, and no count is returned.
- TextTranslator.Translator.ProcessTranslationLine: an invalid `$` pattern is stored like any other; in the plugin `new Regex` throws there.
- TextTranslator.Translator.ProcessTranslationFile: the model reads on past an invalid `$` pattern; in the plugin the caught exception abandons the rest of the file, keeps what the earlier lines stored and returns the count so far.
- TextTranslator.Translator.LoadFiles: it inherits the invalid-pattern gap of `ProcessTranslationFile`; the later files are still loaded in the plugin as in the model.
- The body of `StringTool.FastRemoveChar` is defined elsewhere in the plugin and is not modelled; it is taken to remove every occurrence of the character (`Text.RemoveChar`).
- The `Unescape` extension is defined elsewhere in the plugin and is not modelled; it is a parameter of the loaders.
- The helper `TextTranslateManger.IsInTranslateDict` is defined elsewhere in the plugin and is not modelled. `XuatInterop.Interop.IsTranslatablePrefix` takes its answer as the parameter `inTranslateDict`.
- XuatInterop.Interop.Init: the reflection that finds XUAT's marker field, and the exception it may throw, are reduced to a probe result (`XuatProbe`); the Harmony patch of `IsTranslatable` and the `HasRedirectedTexts` update are not modelled.
- The operations `ToUpper` and `char.IsDigit` are modelled for ASCII only; culture-specific and non-ASCII case mappings and Unicode digits are not modelled.
- Counters and sizes are unbounded integers; the 32-bit overflow of `_subtitleIdCounter` and of the entry counts is not modelled.
- CsvHelper's reading of translation CSV files and Python's `csv` quoting rules are outside the model: files arrive as records or rows of cells.
- Encodings, byte-order marks and `Path.stem` are not modelled; the stem is a parameter of the term converter.
- The Python scripts' `process_folder`, `convert_single_file`, `main` and their messages are not modelled. They walk directories and print, and they call the modelled conversion once per file.
- The Python converters open the output file before writing, so a write that fails midway may leave a partial file. The model only reports -1 for it.
- The lyric manager's `Init`, `Unload`, `CreateMusicPath` and `TryToLoadLyric` only apply Harmony patches or touch the file system and are not modelled. `TryToLoadLyric`'s existence test is the `fileExists` parameter of `LoadSubtitle`.
- LyricManger.Manager.LoadSubtitle: an exception while reading the file midway is not modelled; the file arrives whole as its lines.
- The subtitle manager's `MonitorMaidVoicePlayback`, `ApplySubtitlePatches` and `UnloadSubtitlePatches` are not modelled: they are a coroutine driven by audio playback, and Harmony patching.
- SubtitleManager.Manager.CleanResources: the call to `SubtitleComponentManager.DestroyAllSubtitleComponents`, which destroys Unity objects, is not modelled.
- The component manager's `ShowSubtitle`, `ShowFloatingSubtitle`, `CalculateNonOverlappingPosition`, `HideSubtitle`, `HideAllSubtitles` and `CloneConfig` work on screen positions in floating point and on Unity components, and are not modelled.
- In `SubtitleConfig`, the configuration fields, colour parsing and fonts are not modelled; only the anchor mapping and the type selector are.
- MaidCafeDlcLineBreakCommentFix.LineBreakCommentPrefix: the 20-character limit counts Unicode scalar values, where the plugin counts UTF-16 code units. A comment with characters outside the Basic Multilingual Plane (emoji, say) is broken at a different place in the plugin, which can also cut a surrogate pair in two; neither is modelled.
- In the Maid Cafe line-break fix, the catch block, which would shorten the text to 30 characters and `...`, is not modelled, because `Substring` cannot throw on the lengths it is given.
- In `TextTranslateManger`, the tests that the Maid Cafe and other patches belong to this plugin, and the loader's progress fraction, are not modelled.
- In the `Manger` UI manager, the sprite dump and replacement (`ProcessSpriteReplacementWithNewAtlas`, `DumpSprite`, `GetSpriteBytes`, `ReplaceSprite`, `DebugSpriteInfo`) work on Unity textures and are not modelled. The set of dumped sprites is modelled only as being cleared. `OnUiTextLoadProgress` only logs and is not modelled.
- UiTranslateManger.HandleTextTermTranslation: on both hit paths the plugin calls `TextTranslateManger.MarkTranslated(translation)` and discards its result; that call and whatever it records are not modelled.
- UiTranslateManger.Manager.DumpTerm: the dump file is taken to be empty when the plugin starts. A file left by an earlier session, which makes `FlushTermDumpBuffer` skip the header, is not modelled.
- The Unity texture destruction in the `Unload` methods of the UI and texture managers is not modelled; their caches are only emptied.
- DotNetPath.GetFileName, `GetExtension` and `IsPathRooted` return a value for every string; on the .NET Framework the plugin targets they throw `ArgumentException` for a path with invalid characters (such as `<`, `>`, `|` or a control character). That error path, and the same one in `FileTool.IsZipPathUnsafe`, is not modelled.
- The LRU cache's `GetAllKeys` and `GetAllValues` are not modelled.
- Loop bodies of some source loops are separate methods in the model (`ReadFirstEntry`, `ReadEntry`, `KeepLine`, `ProcessLineOf`, `WriteRecords`, `CachePaths`); each states what one iteration does.
