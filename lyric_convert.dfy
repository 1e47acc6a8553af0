/** The Python lyric converters: a lyric timeline CSV, in one of two
    layouts, becomes `StartTime,EndTime,OriginalLyric,TranslatedLyric` with
    the translation left empty. The CSV reader and writer are not modelled:
    a file is its sequence of rows of cells, `None` when it cannot be opened
    or decoded. Python's `int()` and `float()` are the parameters `isInt`
    and `isFloat`, which say whether each accepts a text. */
module LyricCsvConvert {
  import opened Wrappers
  import opened Text

  type Row = seq<string>

  /** Python's `str.isspace` for one character. */
  predicate IsPySpace(c: char)
  {
    ('\U{9}' <= c <= '\U{D}') || ('\U{1C}' <= c <= '\U{20}') || c == '\U{85}' || c == '\U{A0}' || c == '\U{1680}'
    || ('\U{2000}' <= c <= '\U{200A}') || c == '\U{2028}' || c == '\U{2029}' || c == '\U{202F}' || c == '\U{205F}'
    || c == '\U{3000}'
  }

  /** The characters `str.strip()` removes. */
  const PyWhiteSpace: set<char> := set c: char | '\U{9}' <= c <= '\U{3000}' && IsPySpace(c)

  /** `str.strip()`. */
  function Strip(s: string): string
  {
    Trim(s, PyWhiteSpace)
  }

  /** The layouts `detect_csv_format` tells apart: `format1` is
      `start,end,lyric`, `format2` is `ID,start,end,lyric`. */
  datatype CsvFormat = Format1 | Format2 | Unknown

  /** Header names that mark a `start,end,lyric` header row. */
  datatype HeaderAliases = HeaderAliases(start: seq<string>, end: seq<string>, lyric: seq<string>)

  /** The aliases of the current converters (Japanese and traditional
      Chinese names). */
  const CurrentAliases: HeaderAliases := HeaderAliases(
    ["\U{958B}\U{59CB}\U{6642}\U{9593}(\U{79D2})", "\U{958B}\U{59CB}\U{6642}\U{9593}", "StartTime", "Start Time", "start_time"],
    ["\U{7D50}\U{675F}\U{6642}\U{9593}(\U{79D2})", "\U{7D50}\U{675F}\U{6642}\U{9593}", "EndTime", "End Time", "end_time"],
    ["\U{6B4C}\U{8A5E}", "Lyric", "Lyrics", "OriginalLyric", "Original Lyric"])

  /** The aliases of the older converter (simplified Chinese names). */
  const SimplifiedAliases: HeaderAliases := HeaderAliases(
    ["\U{5F00}\U{59CB}\U{65F6}\U{95F4}(\U{79D2})", "\U{5F00}\U{59CB}\U{65F6}\U{95F4}", "StartTime", "Start Time", "start_time"],
    ["\U{7ED3}\U{675F}\U{65F6}\U{95F4}(\U{79D2})", "\U{7ED3}\U{675F}\U{65F6}\U{95F4}", "EndTime", "End Time", "end_time"],
    ["\U{6B4C}\U{8BCD}", "Lyric", "Lyrics", "OriginalLyric", "Original Lyric"])

  /** The `ID,start,end,lyric` column names. */
  const Format2StartName: string := "\U{958B}\U{59CB}\U{6642}\U{9593}"
  const Format2EndName: string := "\U{7D42}\U{4E86}\U{6642}\U{9593}"
  const Format2LyricName: string := "\U{30ED}\U{30FC}\U{30AB}\U{30E9}\U{30A4}\U{30BA}\U{7528}\U{30AD}\U{30FC}\U{540D}"

  /** The columns written, in order. */
  const OutputHeader: Row := ["StartTime", "EndTime", "OriginalLyric", "TranslatedLyric"]

  /** A sniffed `ID,start,end,lyric` header: four cells, an `ID` in the
      first and one of the Japanese column names in its place. */
  predicate IsFormat2Header(row: Row)
  {
    |row| >= 4
    && (Contains(row[0], "ID") || Strip(row[0]) == "ID")
    && (Contains(row[1], Format2StartName) || Contains(row[2], Format2EndName) || Contains(row[3], Format2LyricName))
  }

  /** A header row by the given aliases, on stripped cells. */
  predicate IsAliasHeader(aliases: HeaderAliases, startTime: string, endTime: string, lyric: string)
  {
    startTime in aliases.start || endTime in aliases.end || lyric in aliases.lyric
  }

  /** `detect_csv_format`, given the first row (`None` when the file has
      none or cannot be read). The rules are tried in order: an
      `ID,start,end,lyric` header, a `start,end,lyric` header, a data row
      with an integer id and four cells, a data row with two leading
      numbers and three cells; anything else is unknown. */
  function DetectCsvFormat(firstRow: Option<Row>, isInt: string -> bool, isFloat: string -> bool): (r: CsvFormat)
  {
    if firstRow.None? || firstRow.value == [] then Unknown
    else
      var row := firstRow.value;
      if IsFormat2Header(row) then Format2
      else if |row| >= 3 && IsAliasHeader(CurrentAliases, Strip(row[0]), Strip(row[1]), Strip(row[2])) then Format1
      else if isInt(row[0]) && |row| >= 4 then Format2
      else if |row| >= 2 && isFloat(row[0]) && isFloat(row[1]) && |row| >= 3 then Format1
      else Unknown
  }

  /** The detection rules, stated one by one: each rule gives its format
      when the earlier ones do not apply, and the converse directions say
      what a reported format implies. */
  lemma DetectCsvFormatRules(row: Row, isInt: string -> bool, isFloat: string -> bool)
    ensures row == [] ==> DetectCsvFormat(Some(row), isInt, isFloat) == Unknown
    ensures IsFormat2Header(row) ==> DetectCsvFormat(Some(row), isInt, isFloat) == Format2
    ensures DetectCsvFormat(Some(row), isInt, isFloat) == Format2 ==>
      IsFormat2Header(row) || (|row| >= 4 && isInt(row[0]))
    ensures DetectCsvFormat(Some(row), isInt, isFloat) == Format1 ==>
      |row| >= 3 && !IsFormat2Header(row)
    ensures |row| < 3 ==> DetectCsvFormat(Some(row), isInt, isFloat) == Unknown
    ensures (!IsFormat2Header(row) && |row| >= 3
             && IsAliasHeader(CurrentAliases, Strip(row[0]), Strip(row[1]), Strip(row[2]))) ==>
      DetectCsvFormat(Some(row), isInt, isFloat) == Format1
    ensures (!IsFormat2Header(row) && |row| >= 4
             && !IsAliasHeader(CurrentAliases, Strip(row[0]), Strip(row[1]), Strip(row[2])) && isInt(row[0])) ==>
      DetectCsvFormat(Some(row), isInt, isFloat) == Format2
    ensures (!IsFormat2Header(row) && |row| >= 3
             && !IsAliasHeader(CurrentAliases, Strip(row[0]), Strip(row[1]), Strip(row[2]))
             && !(|row| >= 4 && isInt(row[0])) && isFloat(row[0]) && isFloat(row[1])) ==>
      DetectCsvFormat(Some(row), isInt, isFloat) == Format1
  {
  }

  /** An output record. */
  datatype LyricRecord = LyricRecord(startTime: string, endTime: string, originalLyric: string, translatedLyric: string)

  /** The conditions every layout shares: both times are numbers and the lyric
      is not empty. */
  function Finish(startTime: string, endTime: string, lyric: string, isFloat: string -> bool): (r: Option<LyricRecord>)
    ensures r.Some? <==> isFloat(startTime) && isFloat(endTime) && lyric != []
    ensures r.Some? ==> r.value == LyricRecord(startTime, endTime, lyric, "")
  {
    if !(isFloat(startTime) && isFloat(endTime)) then None
    else if lyric == [] then None
    else Some(LyricRecord(startTime, endTime, lyric, ""))
  }

  /** A `start,end,lyric` row, with the given header aliases. */
  function ConvertFormat1Row(aliases: HeaderAliases, row: Row, isFloat: string -> bool): (r: Option<LyricRecord>)
  {
    if |row| < 3 then None
    else
      var startTime := Strip(row[0]);
      var endTime := Strip(row[1]);
      var lyric := if |row| > 2 then Strip(row[2]) else "";
      if IsAliasHeader(aliases, startTime, endTime, lyric) then None
      else Finish(startTime, endTime, lyric, isFloat)
  }

  /** A `start,end,lyric` row gives a record exactly when it has three
      cells, is no header by the aliases, has two numbers and a lyric; the
      record holds the stripped cells and an empty translation. */
  lemma ConvertFormat1RowFacts(aliases: HeaderAliases, row: Row, isFloat: string -> bool)
    ensures var r := ConvertFormat1Row(aliases, row, isFloat);
      && (|row| < 3 ==> r == None)
      && (|row| >= 3 ==>
            (r.Some? <==> !IsAliasHeader(aliases, Strip(row[0]), Strip(row[1]), Strip(row[2]))
                          && isFloat(Strip(row[0])) && isFloat(Strip(row[1])) && Strip(row[2]) != []))
      && (r.Some? ==> r.value == LyricRecord(Strip(row[0]), Strip(row[1]), Strip(row[2]), ""))
  {
  }

  /** The header names skipped in an `ID,start,end,lyric` row. */
  predicate IsFormat2HeaderRow(id: string, startTime: string, endTime: string, lyric: string)
  {
    id in ["ID", "id"]
    || startTime in [Format2StartName, "StartTime", "Start Time"]
    || endTime in [Format2EndName, "EndTime", "End Time"]
    || lyric in [Format2LyricName, "OriginalLyric", "Lyric"]
  }

  /** The row step of `convert_lyric_csv` in the current converters: rows
      under three cells are skipped; an `ID,start,end,lyric` file needs four
      cells, no header name and an integer id, and takes columns 1 to 3;
      every other file, an unknown one included, takes columns 0 to 2. */
  function ConvertRow(format: CsvFormat, row: Row, isInt: string -> bool, isFloat: string -> bool): (r: Option<LyricRecord>)
    ensures |row| < 3 ==> r == None
    ensures format == Format2 && |row| >= 3 ==>
      (r.Some? <==> |row| >= 4 && !IsFormat2HeaderRow(Strip(row[0]), Strip(row[1]), Strip(row[2]), Strip(row[3]))
                    && isInt(Strip(row[0])) && isFloat(Strip(row[1])) && isFloat(Strip(row[2])) && Strip(row[3]) != [])
    ensures format == Format2 && r.Some? ==>
      r.value == LyricRecord(Strip(row[1]), Strip(row[2]), Strip(row[3]), "")
    ensures format != Format2 ==> r == ConvertFormat1Row(CurrentAliases, row, isFloat)
  {
    if row == [] || |row| < 3 then None
    else if format == Format2 then
      if |row| < 4 then None
      else
        var id := Strip(row[0]);
        var startTime := Strip(row[1]);
        var endTime := Strip(row[2]);
        var lyric := Strip(row[3]);
        if IsFormat2HeaderRow(id, startTime, endTime, lyric) then None
        else if !isInt(id) then None
        else Finish(startTime, endTime, lyric, isFloat)
    else ConvertFormat1Row(CurrentAliases, row, isFloat)
  }

  /** A record as the converter emits it. */
  predicate WellFormed(r: LyricRecord, isFloat: string -> bool)
  {
    isFloat(r.startTime) && isFloat(r.endTime) && r.originalLyric != [] && r.translatedLyric == []
  }

  /** Every emitted record is well formed. */
  lemma ConvertRowWellFormed(format: CsvFormat, row: Row, isInt: string -> bool, isFloat: string -> bool)
    ensures ConvertRow(format, row, isInt, isFloat).Some? ==>
      WellFormed(ConvertRow(format, row, isInt, isFloat).value, isFloat)
  {
  }

  /** The records of the rows, in input order. */
  function Records(format: CsvFormat, rows: seq<Row>, isInt: string -> bool, isFloat: string -> bool): (r: seq<LyricRecord>)
    ensures |r| <= |rows|
  {
    if rows == [] then []
    else
      var last := ConvertRow(format, rows[|rows| - 1], isInt, isFloat);
      Records(format, rows[..|rows| - 1], isInt, isFloat) + (if last.Some? then [last.value] else [])
  }

  /** One more row. */
  lemma RecordsSnoc(format: CsvFormat, rows: seq<Row>, i: int, isInt: string -> bool, isFloat: string -> bool)
    requires 0 <= i < |rows|
    ensures ConvertRow(format, rows[i], isInt, isFloat).None? ==>
      Records(format, rows[..i + 1], isInt, isFloat) == Records(format, rows[..i], isInt, isFloat)
    ensures ConvertRow(format, rows[i], isInt, isFloat).Some? ==>
      Records(format, rows[..i + 1], isInt, isFloat)
      == Records(format, rows[..i], isInt, isFloat) + [ConvertRow(format, rows[i], isInt, isFloat).value]
  {
    assert rows[..i + 1][..i] == rows[..i];
  }

  /** Every record of a file is well formed. */
  lemma {:induction false} RecordsWellFormed(format: CsvFormat, rows: seq<Row>, isInt: string -> bool,
                                             isFloat: string -> bool)
    ensures forall k :: 0 <= k < |Records(format, rows, isInt, isFloat)| ==>
      WellFormed(Records(format, rows, isInt, isFloat)[k], isFloat)
    decreases |rows|
  {
    if rows != [] {
      RecordsWellFormed(format, rows[..|rows| - 1], isInt, isFloat);
      ConvertRowWellFormed(format, rows[|rows| - 1], isInt, isFloat);
    }
  }

  /** The records of two runs of rows are those of the first followed by
      those of the second. */
  lemma {:induction false} RecordsAppend(format: CsvFormat, a: seq<Row>, b: seq<Row>, isInt: string -> bool,
                                         isFloat: string -> bool)
    ensures Records(format, a + b, isInt, isFloat) == Records(format, a, isInt, isFloat) + Records(format, b, isInt, isFloat)
    decreases |b|
  {
    if b == [] {
      assert a + b == a;
    } else {
      assert (a + b)[..|a + b| - 1] == a + b[..|b| - 1];
      RecordsAppend(format, a, b[..|b| - 1], isInt, isFloat);
    }
  }

  /** The row a record is written as. */
  function RecordRow(r: LyricRecord): Row
  {
    [r.startTime, r.endTime, r.originalLyric, r.translatedLyric]
  }

  function RecordRows(records: seq<LyricRecord>): (r: seq<Row>)
    ensures |r| == |records|
    ensures forall k :: 0 <= k < |records| ==> r[k] == RecordRow(records[k])
  {
    seq(|records|, k requires 0 <= k < |records| => RecordRow(records[k]))
  }

  /** The outcome of a conversion: the value returned (the record count,
      0, or -1 on an exception) and the rows of the output file. */
  datatype Outcome = Outcome(returned: int, output: seq<Row>)

  /** The outcome for the records gathered: the output file holds the
      header and the records, or nothing when there are none; a failing
      write returns -1. */
  function Written(records: seq<LyricRecord>, writeFails: bool): (r: Outcome)
    ensures writeFails ==> r.returned == -1
    ensures !writeFails ==> r.returned == |records|
    ensures !writeFails && records != [] ==> r.output == [OutputHeader] + RecordRows(records)
    ensures !writeFails && records == [] ==> r.output == []
  {
    if writeFails then Outcome(-1, [])
    else if records != [] then Outcome(|records|, [OutputHeader] + RecordRows(records))
    else Outcome(0, [])
  }

  /** `convert_lyric_csv` of the current (English and Chinese)
      converters: the layout is sniffed from the first row, then every row
      is converted in order; an unreadable input or a failing write returns
      -1. */
  method ConvertLyricCsv(input: Option<seq<Row>>, writeFails: bool, isInt: string -> bool, isFloat: string -> bool)
    returns (outcome: Outcome)
    ensures input.None? ==> outcome.returned == -1
    ensures input.Some? ==>
      outcome == Written(Records(DetectCsvFormat(if input.value == [] then None else Some(input.value[0]),
                                                 isInt, isFloat),
                                 input.value, isInt, isFloat), writeFails)
  {
    var firstRow := if input.None? || input.value == [] then None else Some(input.value[0]);
    var fileFormat := DetectCsvFormat(firstRow, isInt, isFloat);
    if input.None? {
      return Outcome(-1, []);
    }
    var rows := input.value;
    var outputData: seq<LyricRecord> := [];
    var i := 0;
    while i < |rows|
      invariant 0 <= i <= |rows|
      invariant outputData == Records(fileFormat, rows[..i], isInt, isFloat)
    {
      var row := rows[i];
      RecordsSnoc(fileFormat, rows, i, isInt, isFloat);
      i := i + 1;
      var record := ConvertRow(fileFormat, row, isInt, isFloat);
      if record.None? {
        continue;
      }
      outputData := outputData + [record.value];
    }
    assert rows[..|rows|] == rows;
    if writeFails {
      return Outcome(-1, []);
    }
    if outputData != [] {
      return Outcome(|outputData|, [OutputHeader] + RecordRows(outputData));
    }
    return Outcome(0, []);
  }

  /** `convert_lyric_csv` of the older converter: every file is read as
      `start,end,lyric` with the simplified Chinese header aliases. */
  method ConvertLyricCsvSimplified(input: Option<seq<Row>>, writeFails: bool, isFloat: string -> bool)
    returns (outcome: Outcome)
    ensures input.None? ==> outcome.returned == -1
    ensures input.Some? ==> outcome == Written(Format1Records(SimplifiedAliases, input.value, isFloat), writeFails)
  {
    if input.None? {
      return Outcome(-1, []);
    }
    var rows := input.value;
    var outputData: seq<LyricRecord> := [];
    var i := 0;
    while i < |rows|
      invariant 0 <= i <= |rows|
      invariant outputData == Format1Records(SimplifiedAliases, rows[..i], isFloat)
    {
      var row := rows[i];
      assert rows[..i + 1][..i] == rows[..i];
      i := i + 1;
      var record := ConvertFormat1Row(SimplifiedAliases, row, isFloat);
      if record.None? {
        continue;
      }
      outputData := outputData + [record.value];
    }
    assert rows[..|rows|] == rows;
    if writeFails {
      return Outcome(-1, []);
    }
    if outputData != [] {
      return Outcome(|outputData|, [OutputHeader] + RecordRows(outputData));
    }
    return Outcome(0, []);
  }

  /** The records of rows all read as `start,end,lyric` with the given
      aliases, in input order. */
  function Format1Records(aliases: HeaderAliases, rows: seq<Row>, isFloat: string -> bool): (r: seq<LyricRecord>)
    ensures |r| <= |rows|
  {
    if rows == [] then []
    else
      var last := ConvertFormat1Row(aliases, rows[|rows| - 1], isFloat);
      Format1Records(aliases, rows[..|rows| - 1], isFloat) + (if last.Some? then [last.value] else [])
  }

  lemma Format1RowWellFormed(aliases: HeaderAliases, row: Row, isFloat: string -> bool)
    ensures ConvertFormat1Row(aliases, row, isFloat).Some? ==> WellFormed(ConvertFormat1Row(aliases, row, isFloat).value, isFloat)
  {
  }

  /** Every record so read is well formed. */
  lemma {:induction false} Format1RecordsWellFormed(aliases: HeaderAliases, rows: seq<Row>, isFloat: string -> bool)
    ensures forall k :: 0 <= k < |Format1Records(aliases, rows, isFloat)| ==>
      WellFormed(Format1Records(aliases, rows, isFloat)[k], isFloat)
    decreases |rows|
  {
    if rows != [] {
      var init := rows[..|rows| - 1];
      var last := ConvertFormat1Row(aliases, rows[|rows| - 1], isFloat);
      Format1RecordsWellFormed(aliases, init, isFloat);
      Format1RowWellFormed(aliases, rows[|rows| - 1], isFloat);
      var r := Format1Records(aliases, rows, isFloat);
      var ri := Format1Records(aliases, init, isFloat);
      assert r == ri + (if last.Some? then [last.value] else []);
      forall k | 0 <= k < |r|
        ensures WellFormed(r[k], isFloat)
      {
        if k < |ri| {
          assert r[k] == ri[k];
        }
      }
    }
  }

  /** The text is its own `strip()`. */
  predicate Stripped(s: string)
  {
    Strip(s) == s
  }

  /** A record the `start,end,lyric` reading gives back unchanged: well
      formed, stripped, and not a header by the current aliases. */
  predicate Rereadable(r: LyricRecord, isFloat: string -> bool)
  {
    WellFormed(r, isFloat) && Stripped(r.startTime) && Stripped(r.endTime) && Stripped(r.originalLyric)
    && !IsAliasHeader(CurrentAliases, r.startTime, r.endTime, r.originalLyric)
  }

  /** A character of a contained text occurs in the text. */
  lemma {:induction false} ContainsOccurs(s: string, p: string, c: char)
    requires Contains(s, p) && c in p
    ensures c in s
    decreases |s|
  {
    if StartsWith(s, p) {
      assert s[..|p|] == p;
    } else {
      ContainsOccurs(s[1..], p, c);
    }
  }

  /** The first written column name has no surrounding space... */
  lemma StartTimeStripped()
    ensures Strip(OutputHeader[0]) == OutputHeader[0]
  {
    TrimStartNoop(OutputHeader[0], PyWhiteSpace);
    TrimEndNoop(OutputHeader[0], PyWhiteSpace);
  }

  /** ...and no `ID`. */
  lemma StartTimeHasNoId()
    ensures !Contains(OutputHeader[0], "ID")
  {
    if Contains(OutputHeader[0], "ID") {
      ContainsOccurs(OutputHeader[0], "ID", 'D');
    }
  }

  /** The written header is no `ID,start,end,lyric` header... */
  lemma OutputHeaderNotFormat2()
    ensures !IsFormat2Header(OutputHeader)
  {
    StartTimeStripped();
    StartTimeHasNoId();
  }

  /** ...and its first name is a `start,end,lyric` alias. */
  lemma OutputHeaderAlias()
    ensures Strip(OutputHeader[0]) in CurrentAliases.start
  {
    StartTimeStripped();
  }

  /** The written header is read back as a `start,end,lyric` header... */
  lemma OutputHeaderDetected(isInt: string -> bool, isFloat: string -> bool)
    ensures DetectCsvFormat(Some(OutputHeader), isInt, isFloat) == Format1
  {
    OutputHeaderNotFormat2();
    OutputHeaderAlias();
  }

  /** ...and yields no record. */
  lemma OutputHeaderSkipped(isInt: string -> bool, isFloat: string -> bool)
    ensures ConvertRow(Format1, OutputHeader, isInt, isFloat) == None
  {
    OutputHeaderAlias();
  }

  /** The converters' records can be read back: the cells are stripped,
      and in a file not read as `ID,start,end,lyric` no record is a header. */
  lemma ConvertRowRereadable(format: CsvFormat, row: Row, isInt: string -> bool, isFloat: string -> bool)
    requires format != Format2
    ensures ConvertRow(format, row, isInt, isFloat).Some? ==>
      Rereadable(ConvertRow(format, row, isInt, isFloat).value, isFloat)
  {
    if |row| >= 3 {
      TrimIdempotent(row[0], PyWhiteSpace);
      TrimIdempotent(row[1], PyWhiteSpace);
      TrimIdempotent(row[2], PyWhiteSpace);
    }
  }

  lemma {:induction false} RecordsRereadable(format: CsvFormat, rows: seq<Row>, isInt: string -> bool,
                                             isFloat: string -> bool)
    requires format != Format2
    ensures forall k :: 0 <= k < |Records(format, rows, isInt, isFloat)| ==>
      Rereadable(Records(format, rows, isInt, isFloat)[k], isFloat)
    decreases |rows|
  {
    if rows != [] {
      RecordsRereadable(format, rows[..|rows| - 1], isInt, isFloat);
      ConvertRowRereadable(format, rows[|rows| - 1], isInt, isFloat);
    }
  }

  /** A re-readable record's row converts back to the record. */
  lemma RecordRowRoundTrip(r: LyricRecord, isInt: string -> bool, isFloat: string -> bool)
    requires Rereadable(r, isFloat)
    ensures ConvertRow(Format1, RecordRow(r), isInt, isFloat) == Some(r)
  {
    var row := RecordRow(r);
    assert row[0] == r.startTime && row[1] == r.endTime && row[2] == r.originalLyric;
    assert Finish(r.startTime, r.endTime, r.originalLyric, isFloat) == Some(r);
  }

  /** One more row that converts to a record. */
  lemma RecordsSnocSome(format: CsvFormat, rows: seq<Row>, row: Row, r: LyricRecord, isInt: string -> bool,
                        isFloat: string -> bool)
    requires ConvertRow(format, row, isInt, isFloat) == Some(r)
    ensures Records(format, rows + [row], isInt, isFloat) == Records(format, rows, isInt, isFloat) + [r]
  {
    assert (rows + [row])[..|rows|] == rows;
  }

  lemma RecordRowsSnoc(records: seq<LyricRecord>, r: LyricRecord)
    ensures RecordRows(records + [r]) == RecordRows(records) + [RecordRow(r)]
  {
  }

  /** The rows of re-readable records convert back to those records. */
  lemma {:induction false} RecordRowsRoundTrip(records: seq<LyricRecord>, isInt: string -> bool,
                                               isFloat: string -> bool)
    requires forall k :: 0 <= k < |records| ==> Rereadable(records[k], isFloat)
    ensures Records(Format1, RecordRows(records), isInt, isFloat) == records
    decreases |records|
  {
    if records != [] {
      var init := records[..|records| - 1];
      var last := records[|records| - 1];
      assert records == init + [last];
      RecordRowsRoundTrip(init, isInt, isFloat);
      RecordRowRoundTrip(last, isInt, isFloat);
      RecordRowsSnoc(init, last);
      RecordsSnocSome(Format1, RecordRows(init), RecordRow(last), last, isInt, isFloat);
    }
  }

  /** A leading row that converts to nothing adds no record. */
  lemma RecordsConsNone(format: CsvFormat, row: Row, rows: seq<Row>, isInt: string -> bool, isFloat: string -> bool)
    requires ConvertRow(format, row, isInt, isFloat) == None
    ensures Records(format, [row] + rows, isInt, isFloat) == Records(format, rows, isInt, isFloat)
  {
    RecordsAppend(format, [row], rows, isInt, isFloat);
    assert [row][..0] == [];
  }

  /** Converting a written file of re-readable records again writes the
      same file and returns the same count. */
  lemma ReconvertOutput(records: seq<LyricRecord>, isInt: string -> bool, isFloat: string -> bool)
    requires forall k :: 0 <= k < |records| ==> Rereadable(records[k], isFloat)
    ensures var out := Written(records, false).output;
      Written(Records(DetectCsvFormat(if out == [] then None else Some(out[0]), isInt, isFloat), out, isInt, isFloat),
              false)
      == Written(records, false)
  {
    if records != [] {
      var out := Written(records, false).output;
      assert out == [OutputHeader] + RecordRows(records);
      OutputHeaderDetected(isInt, isFloat);
      OutputHeaderSkipped(isInt, isFloat);
      RecordsConsNone(Format1, OutputHeader, RecordRows(records), isInt, isFloat);
      RecordRowsRoundTrip(records, isInt, isFloat);
    }
  }

  /** The converter is idempotent on files it did not read as
      `ID,start,end,lyric`: converting its output again yields the same
      output. */
  lemma ConvertIdempotent(rows: seq<Row>, isInt: string -> bool, isFloat: string -> bool)
    requires DetectCsvFormat(if rows == [] then None else Some(rows[0]), isInt, isFloat) != Format2
    ensures var records := Records(DetectCsvFormat(if rows == [] then None else Some(rows[0]), isInt, isFloat),
                                   rows, isInt, isFloat);
      var out := Written(records, false).output;
      Written(Records(DetectCsvFormat(if out == [] then None else Some(out[0]), isInt, isFloat), out, isInt, isFloat),
              false)
      == Written(records, false)
  {
    var format := DetectCsvFormat(if rows == [] then None else Some(rows[0]), isInt, isFloat);
    RecordsRereadable(format, rows, isInt, isFloat);
    ReconvertOutput(Records(format, rows, isInt, isFloat), isInt, isFloat);
  }
}
