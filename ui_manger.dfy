/** `UITranslateManager` of the `Manger` namespace: UI terms looked up in a
    term table with a fallback that drops the term's first path segment,
    untranslated terms collected in a buffer and flushed to a CSV dump file,
    and the table from sprite name to replacement image path. */
module UiTranslateManger {
  import opened Wrappers
  import opened Text
  import opened Upserts
  import StringTool
  import DotNetPath
  import Csv = CsvTranslationFileProcessor
  import TranslationLoadResult

  /** The term after its first `/`, when it has one (`Substring(IndexOf('/') + 1)`). */
  function AfterFirstSlash(term: string): (r: Option<string>)
    ensures r.None? <==> '/' !in term
    ensures r.Some? ==> |r.value| < |term|
    ensures r.Some? ==> var k := |term| - |r.value| - 1;
      term == term[..k] + "/" + r.value && '/' !in term[..k]
  {
    var k := IndexOfChar(term, '/');
    if k == -1 then None
    else
      assert term == term[..k] + "/" + term[k + 1..];
      Some(term[k + 1..])
  }

  /** Cutting at the first `/` gives back what followed it, later `/`
      included. */
  lemma AfterFirstSlashSplits(a: string, b: string)
    requires '/' !in a
    ensures AfterFirstSlash(a + "/" + b) == Some(b)
  {
    var term := a + "/" + b;
    assert term[|a|] == '/' && '/' in term;
    assert forall i :: 0 <= i < |a| ==> term[i] == a[i];
    assert '/' !in term[..|a|];
    assert IndexOfChar(term, '/') == |a|;
    assert term[|a| + 1..] == b;
  }

  /** `HandleTextTermTranslation` on the term table `translations`: `None`
      is the `false` result with translation "". An empty term is never
      looked up; the term itself is tried first, then the part after its
      first `/`. */
  function HandleTextTermTranslation(translations: map<string, string>, term: string): (r: Option<string>)
    ensures term == [] ==> r == None
    ensures term != [] && term in translations ==> r == Some(translations[term])
    ensures r.Some? ==> r.value in translations.Values
    ensures r.Some? && term !in translations ==>
      AfterFirstSlash(term).Some? && AfterFirstSlash(term).value in translations
      && r.value == translations[AfterFirstSlash(term).value]
    ensures r.None? && term != [] ==>
      term !in translations && (AfterFirstSlash(term).None? || AfterFirstSlash(term).value !in translations)
  {
    if term == [] then None
    else if term in translations then Some(translations[term])
    else match AfterFirstSlash(term)
      case None => None
      case Some(newTerm) => if newTerm in translations then Some(translations[newTerm]) else None
  }

  /** A term `prefix/rest` that has no entry of its own is translated as
      `rest`. */
  lemma SegmentFallback(translations: map<string, string>, prefix: string, rest: string)
    requires '/' !in prefix && prefix + "/" + rest !in translations
    ensures HandleTextTermTranslation(translations, prefix + "/" + rest)
      == if rest in translations then Some(translations[rest]) else None
  {
    AfterFirstSlashSplits(prefix, rest);
  }

  /** Only the first segment is dropped: `a/b/c` is not found through `c`
      alone, whatever the table says about `c`. */
  lemma OnlyFirstSegmentDropped(translations: map<string, string>, a: string, b: string, c: string)
    requires '/' !in a
    requires a + "/" + b + "/" + c !in translations && b + "/" + c !in translations
    ensures HandleTextTermTranslation(translations, a + "/" + b + "/" + c) == None
  {
    assert a + "/" + b + "/" + c == a + "/" + (b + "/" + c);
    SegmentFallback(translations, a, b + "/" + c);
  }

  /** A line of the term dump file: the CSV header or one record. */
  datatype DumpRow = Header | Record(entry: Csv.CsvEntry)

  /** The records of a buffer as file rows. */
  function Rows(buffer: seq<Csv.CsvEntry>): (r: seq<DumpRow>)
    ensures |r| == |buffer|
    ensures forall i :: 0 <= i < |r| ==> r[i] == Record(buffer[i])
  {
    seq(|buffer|, i requires 0 <= i < |buffer| => Record(buffer[i]))
  }

  /** The records of a dump file, headers skipped. */
  function FileEntries(rows: seq<DumpRow>): (r: seq<Csv.CsvEntry>)
    ensures |r| <= |rows|
    decreases |rows|
  {
    if rows == [] then []
    else
      var last := rows[|rows| - 1];
      FileEntries(rows[..|rows| - 1]) + (if last.Record? then [last.entry] else [])
  }

  lemma {:induction false} FileEntriesAppend(a: seq<DumpRow>, b: seq<DumpRow>)
    ensures FileEntries(a + b) == FileEntries(a) + FileEntries(b)
    decreases |b|
  {
    if b == [] {
      assert a + b == a;
    } else {
      assert (a + b)[..|a + b| - 1] == a + b[..|b| - 1];
      FileEntriesAppend(a, b[..|b| - 1]);
    }
  }

  lemma {:induction false} FileEntriesRows(buffer: seq<Csv.CsvEntry>)
    ensures FileEntries(Rows(buffer)) == buffer
    decreases |buffer|
  {
    if buffer != [] {
      var init := buffer[..|buffer| - 1];
      assert Rows(buffer)[..|buffer| - 1] == Rows(init);
      FileEntriesRows(init);
    }
  }

  /** The terms of some dump records. */
  function Terms(entries: seq<Csv.CsvEntry>): (r: seq<string>)
    ensures |r| == |entries|
    ensures forall i :: 0 <= i < |r| ==> r[i] == entries[i].term
  {
    seq(|entries|, i requires 0 <= i < |entries| => entries[i].term)
  }

  /** No value occurs twice. */
  predicate Distinct(s: seq<string>)
  {
    forall i, j :: 0 <= i < j < |s| ==> s[i] != s[j]
  }

  /** What a successful flush of a non-empty buffer appends to the file:
      the header if nothing has been written yet, then the records. */
  function Flushed(file: seq<DumpRow>, buffer: seq<Csv.CsvEntry>): (r: seq<DumpRow>)
    ensures FileEntries(r) == FileEntries(file) + buffer
  {
    var header := if file == [] then [Header] else [];
    FileEntriesRows(buffer);
    FileEntriesAppend(file, header + Rows(buffer));
    FileEntriesAppend(header, Rows(buffer));
    assert FileEntries(header) == [] by {
      assert [Header][..0] == [];
    }
    file + (header + Rows(buffer))
  }

  /** Flushing keeps a dump file one header followed by records. */
  lemma FlushedShape(file: seq<DumpRow>, buffer: seq<Csv.CsvEntry>)
    requires file != [] ==> file[0] == Header
    requires forall i :: 0 < i < |file| ==> file[i].Record?
    ensures Flushed(file, buffer) != [] && Flushed(file, buffer)[0] == Header
    ensures forall i :: 0 < i < |Flushed(file, buffer)| ==> Flushed(file, buffer)[i].Record?
  {
  }

  /** Taking a term not yet remembered keeps the dumped terms distinct and
      remembered. */
  lemma DistinctSnoc(s: seq<string>, t: string, remembered: set<string>)
    requires Distinct(s) && forall i :: 0 <= i < |s| ==> s[i] in remembered
    requires t !in remembered
    ensures Distinct(s + [t]) && forall i :: 0 <= i < |s + [t]| ==> (s + [t])[i] in remembered + {t}
  {
  }

  /** Whether `DumpTerm` takes the term: dumping is on, the term is not
      blank and it has not been dumped before. */
  predicate TakesTerm(enabled: bool, term: string, dumped: set<string>)
  {
    enabled && !StringTool.IsNullOrWhiteSpace(term) && term !in dumped
  }

  class Manager {
    /** `_initialized`. */
    var initialized: bool
    /** `_translations`: term to translation. */
    var translations: map<string, string>
    /** `SpritePathCache`: sprite name to image path. */
    var spritePathCache: map<string, string>
    /** `DumpedSprite`. */
    var dumpedSprite: set<string>
    /** `DumpedTerm`. */
    var dumpedTerm: set<string>
    /** `TermDumpBuffer`. */
    var termDumpBuffer: seq<Csv.CsvEntry>
    /** `_shouldWriteHeader`. */
    var shouldWriteHeader: bool
    /** The rows of the dump file at `TermDumpFilePath`. */
    var dumpFile: seq<DumpRow>

    /** The dump file is empty until the header is due no longer, and once
        written it starts with the one header and holds only records after
        it. */
    ghost predicate Valid()
      reads this
    {
      (shouldWriteHeader <==> dumpFile == [])
      && (dumpFile != [] ==> dumpFile[0] == Header)
      && (forall i :: 0 < i < |dumpFile| ==> dumpFile[i].Record?)
    }

    /** Every term dumped so far, written or still buffered, in order. */
    ghost function Dumped(): seq<string>
      reads this
    {
      Terms(FileEntries(dumpFile) + termDumpBuffer)
    }

    /** Each dumped term was taken once and is remembered in `DumpedTerm`. */
    ghost predicate Deduplicated()
      reads this
    {
      Distinct(Dumped()) && forall i :: 0 <= i < |Dumped()| ==> Dumped()[i] in dumpedTerm
    }

    /** The static initial state. */
    constructor ()
      ensures Valid() && Deduplicated()
      ensures !initialized && translations == map[] && spritePathCache == map[]
      ensures dumpedSprite == {} && dumpedTerm == {} && termDumpBuffer == []
      ensures shouldWriteHeader && dumpFile == []
    {
      initialized := false;
      translations := map[];
      spritePathCache := map[];
      dumpedSprite := {};
      dumpedTerm := {};
      termDumpBuffer := [];
      shouldWriteHeader := true;
      dumpFile := [];
    }

    /** `LoadSpriteTextures`, given what the scan of the sprite directory
        found: `None` when the directory is missing and cannot be created,
        which leaves the table alone; otherwise the table is rebuilt, keyed
        by each file's name without its extension. */
    method LoadSpriteTextures(files: Option<seq<string>>)
      modifies this`spritePathCache
      ensures files.None? ==> spritePathCache == old(spritePathCache)
      ensures files.Some? ==>
        spritePathCache == Upsert(map[], KeyedBy(files.value, DotNetPath.GetFileNameWithoutExtension))
    {
      if files.None? {
        return;
      }
      var fs := files.value;
      spritePathCache := map[];
      var i := 0;
      while i < |fs|
        invariant 0 <= i <= |fs|
        invariant spritePathCache == Upsert(map[], KeyedBy(fs[..i], DotNetPath.GetFileNameWithoutExtension))
      {
        var fileName := DotNetPath.GetFileNameWithoutExtension(fs[i]);
        KeyedBySnoc(fs, i, DotNetPath.GetFileNameWithoutExtension);
        UpsertSnoc(map[], KeyedBy(fs[..i], DotNetPath.GetFileNameWithoutExtension), (fileName, fs[i]));
        spritePathCache := spritePathCache[fileName := fs[i]];
        i := i + 1;
      }
      assert fs[..|fs|] == fs;
    }

    /** `Init`: a second call does nothing; the first scans the sprites and
        marks the manager initialised. The term table arrives later, through
        `OnUiTextLoadComplete`. */
    method Init(spriteFiles: Option<seq<string>>)
      modifies this`spritePathCache, this`initialized
      ensures initialized
      ensures old(initialized) ==> spritePathCache == old(spritePathCache)
      ensures !old(initialized) && spriteFiles.Some? ==>
        spritePathCache == Upsert(map[], KeyedBy(spriteFiles.value, DotNetPath.GetFileNameWithoutExtension))
      ensures spriteFiles.None? ==> spritePathCache == old(spritePathCache)
    {
      if initialized {
        return;
      }
      LoadSpriteTextures(spriteFiles);
      initialized := true;
    }

    /** `Reload`: refused before `Init`; otherwise the sprites are scanned
        again (the term table is reloaded asynchronously). */
    method Reload(spriteFiles: Option<seq<string>>)
      modifies this`spritePathCache
      ensures !initialized || spriteFiles.None? ==> spritePathCache == old(spritePathCache)
      ensures initialized && spriteFiles.Some? ==>
        spritePathCache == Upsert(map[], KeyedBy(spriteFiles.value, DotNetPath.GetFileNameWithoutExtension))
    {
      if !initialized {
        return;
      }
      LoadSpriteTextures(spriteFiles);
    }

    /** `OnUiTextLoadComplete`: the loaded table replaces the term table. */
    method OnUiTextLoadComplete(result: TranslationLoadResult.LoadResult)
      modifies this`translations
      ensures translations == result.translations
    {
      translations := result.translations;
    }

    /** The record loop of `FlushTermDumpBuffer`: each buffered entry is
        written after the rows already there. */
    static method WriteRecords(rows: seq<DumpRow>, buffer: seq<Csv.CsvEntry>) returns (written: seq<DumpRow>)
      ensures written == rows + Rows(buffer)
    {
      written := rows;
      var i := 0;
      while i < |buffer|
        invariant 0 <= i <= |buffer|
        invariant written == rows + Rows(buffer[..i])
      {
        assert Rows(buffer[..i + 1]) == Rows(buffer[..i]) + [Record(buffer[i])];
        written := written + [Record(buffer[i])];
        i := i + 1;
      }
      assert buffer[..i] == buffer;
    }

    /** `FlushTermDumpBuffer`; `writeFails` says whether writing the file
        throws. An empty buffer is left as it is; a failed write keeps the
        buffer for the next flush; a successful one appends the header if the
        file is still empty, then the buffered records, and empties the
        buffer. The written and pending terms stay the same either way. */
    method FlushTermDumpBuffer(writeFails: bool)
      requires Valid()
      modifies this`termDumpBuffer, this`shouldWriteHeader, this`dumpFile
      ensures Valid() && Dumped() == old(Dumped())
      ensures old(termDumpBuffer) == [] || writeFails ==>
        termDumpBuffer == old(termDumpBuffer) && dumpFile == old(dumpFile)
        && shouldWriteHeader == old(shouldWriteHeader)
      ensures old(termDumpBuffer) != [] && !writeFails ==>
        termDumpBuffer == [] && !shouldWriteHeader && dumpFile == Flushed(old(dumpFile), old(termDumpBuffer))
    {
      if termDumpBuffer == [] {
        return;
      }
      if writeFails {
        return;
      }
      if dumpFile != [] {
        shouldWriteHeader := false;
      }
      ghost var header: seq<DumpRow> := if dumpFile == [] then [Header] else [];
      var rows := dumpFile;
      if shouldWriteHeader {
        rows := rows + [Header];
        shouldWriteHeader := false;
      }
      assert rows == old(dumpFile) + header;
      rows := WriteRecords(rows, termDumpBuffer);
      AppendAssoc(old(dumpFile), header, Rows(termDumpBuffer));
      FlushedShape(old(dumpFile), old(termDumpBuffer));
      assert rows == Flushed(old(dumpFile), old(termDumpBuffer));
      dumpFile := rows;
      termDumpBuffer := [];
      assert FileEntries(dumpFile) + termDumpBuffer == FileEntries(old(dumpFile)) + old(termDumpBuffer);
    }

    /** `DumpTerm`, with the `EnableTermDump` and `TermDumpThreshold`
        settings as parameters: a term that is taken is remembered and
        buffered with an empty translation, and the buffer is flushed once
        it holds `threshold` records. */
    method DumpTerm(term: string, original: string, enabled: bool, threshold: int, writeFails: bool)
      requires Valid()
      modifies this`dumpedTerm, this`termDumpBuffer, this`shouldWriteHeader, this`dumpFile
      ensures Valid()
      ensures !TakesTerm(enabled, term, old(dumpedTerm)) ==>
        dumpedTerm == old(dumpedTerm) && termDumpBuffer == old(termDumpBuffer)
        && dumpFile == old(dumpFile) && shouldWriteHeader == old(shouldWriteHeader)
      ensures TakesTerm(enabled, term, old(dumpedTerm)) ==>
        var buffered := old(termDumpBuffer) + [Csv.CsvEntry(term, original, "")];
        dumpedTerm == old(dumpedTerm) + {term}
        && (if threshold <= |buffered| && !writeFails
            then termDumpBuffer == [] && dumpFile == Flushed(old(dumpFile), buffered)
            else termDumpBuffer == buffered && dumpFile == old(dumpFile))
      ensures Dumped() == old(Dumped()) + (if TakesTerm(enabled, term, old(dumpedTerm)) then [term] else [])
      ensures old(Deduplicated()) ==> Deduplicated()
    {
      if !enabled {
        return;
      }
      if StringTool.IsNullOrWhiteSpace(term) {
        return;
      }
      if term in dumpedTerm {
        return;
      }
      dumpedTerm := dumpedTerm + {term};
      termDumpBuffer := termDumpBuffer + [Csv.CsvEntry(term, original, "")];
      assert FileEntries(dumpFile) + termDumpBuffer == FileEntries(dumpFile) + old(termDumpBuffer) + [Csv.CsvEntry(term, original, "")];
      assert Dumped() == old(Dumped()) + [term];
      if old(Deduplicated()) {
        DistinctSnoc(old(Dumped()), term, old(dumpedTerm));
      }
      if |termDumpBuffer| >= threshold {
        FlushTermDumpBuffer(writeFails);
      }
    }

    /** `OnSceneUnloaded`: flushes the buffer when dumping is on. */
    method OnSceneUnloaded(enabled: bool, writeFails: bool)
      requires Valid()
      modifies this`termDumpBuffer, this`shouldWriteHeader, this`dumpFile
      ensures Valid() && Dumped() == old(Dumped())
      ensures !enabled || old(termDumpBuffer) == [] || writeFails ==>
        termDumpBuffer == old(termDumpBuffer) && dumpFile == old(dumpFile)
      ensures enabled && old(termDumpBuffer) != [] && !writeFails ==>
        termDumpBuffer == [] && dumpFile == Flushed(old(dumpFile), old(termDumpBuffer))
    {
      if enabled {
        FlushTermDumpBuffer(writeFails);
      }
    }

    /** `Unload`: refused before `Init`; otherwise the term and sprite
        tables are emptied, the buffer is flushed, both dumped sets are
        forgotten and the manager is uninitialised. */
    method Unload(writeFails: bool)
      requires Valid()
      modifies this
      ensures Valid() && Dumped() == old(Dumped())
      ensures !old(initialized) ==>
        initialized == old(initialized) && translations == old(translations)
        && spritePathCache == old(spritePathCache) && dumpedSprite == old(dumpedSprite)
        && dumpedTerm == old(dumpedTerm) && termDumpBuffer == old(termDumpBuffer)
        && dumpFile == old(dumpFile) && shouldWriteHeader == old(shouldWriteHeader)
      ensures old(initialized) ==>
        !initialized && translations == map[] && spritePathCache == map[]
        && dumpedSprite == {} && dumpedTerm == {}
        && (if old(termDumpBuffer) == [] || writeFails
            then termDumpBuffer == old(termDumpBuffer) && dumpFile == old(dumpFile)
            else termDumpBuffer == [] && dumpFile == Flushed(old(dumpFile), old(termDumpBuffer)))
    {
      if !initialized {
        return;
      }
      translations := map[];
      spritePathCache := map[];
      FlushTermDumpBuffer(writeFails);
      dumpedSprite := {};
      dumpedTerm := {};
      initialized := false;
    }

    /** `IsSpriteReplaceAvailable`: false for an empty name; otherwise
        whether the name with the marker taken out has an image. */
    predicate IsSpriteReplaceAvailable(spriteName: string, marker: string)
      reads this
      requires marker != []
    {
      spriteName != [] && Replace(spriteName, marker, "") in spritePathCache
    }

    /** The path `GetSpriteTexture` reads the image from, or `None` for the
        null texture: the marker is taken out, and the name must then pass
        `IsSpriteReplaceAvailable` (which takes the marker out once more)
        and be in the table. */
    function GetSpriteTexturePath(spriteName: string, marker: string): (r: Option<string>)
      reads this
      requires marker != []
      ensures r.Some? ==> r.value in spritePathCache.Values
      ensures r.Some? ==> IsSpriteReplaceAvailable(Replace(spriteName, marker, ""), marker)
    {
      var name := Replace(spriteName, marker, "");
      if !IsSpriteReplaceAvailable(name, marker) then None
      else if name !in spritePathCache then None
      else Some(spritePathCache[name])
    }
  }

  /** Taking out a one-character marker is removing that character. */
  lemma RemoveMarker(s: string, c: char)
    ensures Replace(s, [c], "") == RemoveChar(s, c)
  {
    ReplaceOneChar(s, c, "");
    SubstEmptyIsRemove(s, c);
  }

  /** With a one-character marker such as XUnity.AutoTranslator's U+180E,
      a sprite is available exactly when its name without the marker is a
      non-empty key, and the texture is read from that key's path. */
  lemma SpriteWithSingleCharMarker(m: Manager, spriteName: string, c: char)
    ensures m.IsSpriteReplaceAvailable(spriteName, [c])
      <==> spriteName != [] && RemoveChar(spriteName, c) in m.spritePathCache
    ensures m.GetSpriteTexturePath(spriteName, [c])
      == if RemoveChar(spriteName, c) != [] && RemoveChar(spriteName, c) in m.spritePathCache
         then Some(m.spritePathCache[RemoveChar(spriteName, c)]) else None
  {
    var name := RemoveChar(spriteName, c);
    RemoveMarker(spriteName, c);
    RemoveMarker(name, c);
    RemoveAbsent(name, c);
  }

  /** After a scan, a sprite name is a key exactly when some scanned file
      has it as its name without extension, and it leads to the last such
      file. */
  lemma SpriteScanLookup(files: seq<string>, name: string)
    ensures name in Upsert(map[], KeyedBy(files, DotNetPath.GetFileNameWithoutExtension))
      <==> exists i :: 0 <= i < |files| && DotNetPath.GetFileNameWithoutExtension(files[i]) == name
    ensures forall i :: (0 <= i < |files| && DotNetPath.GetFileNameWithoutExtension(files[i]) == name
                         && (forall j :: i < j < |files| ==> DotNetPath.GetFileNameWithoutExtension(files[j]) != name))
                         ==> Upsert(map[], KeyedBy(files, DotNetPath.GetFileNameWithoutExtension))[name] == files[i]
  {
    KeyedLookup(map[], files, DotNetPath.GetFileNameWithoutExtension, name);
  }
}
