/** The Python term converters: a multilingual CSV exported by the game's
    site or I18nEx (`Key,Type,Desc,Japanese,English,...`) becomes the
    plugin's `Term,Original,Translation` table. The CSV reader and writer
    are not modelled: a file is its rows of cells, `None` when it cannot be
    opened or decoded; the first row names the columns, as for Python's
    `csv.DictReader`. The file name's stem (`Path(input_file).stem`) is a
    parameter. A `None` cell value (a row shorter than the header) is the
    empty text, since both are skipped as a key and written as nothing. */
module TermCsvConvert {
  import opened Wrappers
  import opened Text
  import UiTranslateManger

  type Row = seq<string>

  /** The columns written, in order. */
  const OutputHeader: Row := ["Term", "Original", "Translation"]

  /** The last position of `name` in the header, or -1. */
  function LastIndexOf(header: Row, name: string): (r: int)
    ensures -1 <= r < |header|
    ensures r == -1 <==> name !in header
    ensures r >= 0 ==> header[r] == name && forall j :: r < j < |header| ==> header[j] != name
  {
    if header == [] then -1
    else if header[|header| - 1] == name then |header| - 1
    else LastIndexOf(header[..|header| - 1], name)
  }

  /** What `row.get(name, '')` gives in a `DictReader` row: nothing for a
      name the header does not have; otherwise the cell under its last
      occurrence, since later columns overwrite earlier ones, or nothing
      when the row is too short to reach it. */
  function Column(header: Row, row: Row, name: string): (r: string)
  {
    var j := LastIndexOf(header, name);
    if j == -1 || j >= |row| then "" else row[j]
  }

  /** A name present once reads its own column. */
  lemma ColumnOfUniqueName(header: Row, row: Row, j: int)
    requires 0 <= j < |header|
    requires forall i :: 0 <= i < |header| && i != j ==> header[i] != header[j]
    ensures Column(header, row, header[j]) == if j < |row| then row[j] else ""
  {
  }

  /** A name the header does not have reads nothing. */
  lemma ColumnOfMissingName(header: Row, row: Row, name: string)
    requires name !in header
    ensures Column(header, row, name) == ""
  {
  }

  /** The first header name ending in `Key`, if any. */
  function FirstEndingWithKey(header: Row): (r: Option<string>)
    ensures r.Some? ==> r.value in header && EndsWith(r.value, "Key")
    ensures r.None? <==> forall j :: 0 <= j < |header| ==> !EndsWith(header[j], "Key")
  {
    if header == [] then None
    else if EndsWith(header[0], "Key") then Some(header[0])
    else FirstEndingWithKey(header[1..])
  }

  /** The first name ending in `Key` comes before any other such name. */
  lemma {:induction false} FirstEndingWithKeyIsFirst(header: Row, j: int)
    requires 0 <= j < |header| && EndsWith(header[j], "Key")
    ensures FirstEndingWithKey(header).Some?
    ensures exists i :: 0 <= i <= j && header[i] == FirstEndingWithKey(header).value
                        && forall h :: 0 <= h < i ==> !EndsWith(header[h], "Key")
    decreases |header|
  {
    if EndsWith(header[0], "Key") {
      assert header[0] == FirstEndingWithKey(header).value;
    } else {
      FirstEndingWithKeyIsFirst(header[1..], j - 1);
      var i :| 0 <= i <= j - 1 && header[1..][i] == FirstEndingWithKey(header[1..]).value
        && forall h :: 0 <= h < i ==> !EndsWith(header[1..][h], "Key");
      assert header[i + 1] == FirstEndingWithKey(header).value;
      forall h | 0 <= h < i + 1
        ensures !EndsWith(header[h], "Key")
      {
        if h > 0 {
          assert header[h] == header[1..][h - 1];
        }
      }
    }
  }

  /** The column the key is read from: `Key` when the header has it (a
      byte-order mark may hide it), else the first name ending in `Key`,
      else `Key` all the same, which then reads nothing. */
  function KeyField(header: Row): (r: string)
    ensures "Key" in header ==> r == "Key"
    ensures r != "Key" ==> r in header && EndsWith(r, "Key")
  {
    if "Key" in header then "Key"
    else match FirstEndingWithKey(header)
      case Some(name) => name
      case None => "Key"
  }

  /** The key search runs into the `None` name `DictReader` gives the
      surplus cells of a row longer than the header, and fails: no column
      is `Key` or ends in it and the row has more cells than the header. */
  predicate Raises(header: Row, row: Row)
  {
    "Key" !in header && FirstEndingWithKey(header).None? && |row| > |header|
  }

  /** An output record. */
  datatype TermRecord = TermRecord(term: string, original: string, translation: string)

  /** The row step of `convert_single_csv`, for a row that does not
      raise: a row without a key is skipped; otherwise the term is the key,
      prefixed with the file stem and `/` when asked, the original is the
      `Japanese` column and the translation the `English` one. */
  function ConvertRow(header: Row, row: Row, stem: string, addPrefix: bool): (r: Option<TermRecord>)
    ensures r.None? <==> Column(header, row, KeyField(header)) == []
    ensures r.Some? ==>
      r.value.original == Column(header, row, "Japanese") && r.value.translation == Column(header, row, "English")
    ensures r.Some? && addPrefix ==> r.value.term == stem + "/" + Column(header, row, KeyField(header))
    ensures r.Some? && !addPrefix ==> r.value.term == Column(header, row, KeyField(header))
  {
    var key := Column(header, row, KeyField(header));
    var japanese := Column(header, row, "Japanese");
    var english := Column(header, row, "English");
    if key == [] then None
    else
      var termValue := if addPrefix then stem + "/" + key else key;
      Some(TermRecord(termValue, japanese, english))
  }

  /** The records of the data rows, in input order. */
  function Records(header: Row, rows: seq<Row>, stem: string, addPrefix: bool): (r: seq<TermRecord>)
    ensures |r| <= |rows|
  {
    if rows == [] then []
    else
      var last := ConvertRow(header, rows[|rows| - 1], stem, addPrefix);
      Records(header, rows[..|rows| - 1], stem, addPrefix) + (if last.Some? then [last.value] else [])
  }

  lemma RecordsSnoc(header: Row, rows: seq<Row>, i: int, stem: string, addPrefix: bool)
    requires 0 <= i < |rows|
    ensures ConvertRow(header, rows[i], stem, addPrefix).None? ==>
      Records(header, rows[..i + 1], stem, addPrefix) == Records(header, rows[..i], stem, addPrefix)
    ensures ConvertRow(header, rows[i], stem, addPrefix).Some? ==>
      Records(header, rows[..i + 1], stem, addPrefix)
      == Records(header, rows[..i], stem, addPrefix) + [ConvertRow(header, rows[i], stem, addPrefix).value]
  {
    assert rows[..i + 1][..i] == rows[..i];
  }

  /** Some data row raises. */
  predicate AnyRaises(header: Row, rows: seq<Row>)
  {
    exists i :: 0 <= i < |rows| && Raises(header, rows[i])
  }

  /** A header with a key column never raises, whatever the rows. */
  lemma KeyColumnNeverRaises(header: Row, rows: seq<Row>, j: int)
    requires 0 <= j < |header| && EndsWith(header[j], "Key")
    ensures !AnyRaises(header, rows)
  {
    FirstEndingWithKeyIsFirst(header, j);
  }

  /** Every emitted record has a key, and the key is the whole term or,
      with the prefix, what follows the stem and `/`. */
  lemma {:induction false} RecordsHaveKeys(header: Row, rows: seq<Row>, stem: string, addPrefix: bool)
    ensures forall k :: 0 <= k < |Records(header, rows, stem, addPrefix)| ==>
      var t := Records(header, rows, stem, addPrefix)[k].term;
      if addPrefix then |t| > |stem| + 1 && t[..|stem| + 1] == stem + "/" else t != []
    decreases |rows|
  {
    if rows != [] {
      var init := rows[..|rows| - 1];
      RecordsHaveKeys(header, init, stem, addPrefix);
      var last := ConvertRow(header, rows[|rows| - 1], stem, addPrefix);
      var r := Records(header, rows, stem, addPrefix);
      var ri := Records(header, init, stem, addPrefix);
      assert r == ri + (if last.Some? then [last.value] else []);
      forall k | 0 <= k < |r|
        ensures var t := r[k].term;
          if addPrefix then |t| > |stem| + 1 && t[..|stem| + 1] == stem + "/" else t != []
      {
        if k < |ri| {
          assert r[k] == ri[k];
        } else if addPrefix {
          assert r[k].term == (stem + "/") + Column(header, rows[|rows| - 1], KeyField(header));
        }
      }
    }
  }

  /** A prefixed term the term table does not hold is looked up through
      the key it was made from, when the stem holds no `/`. */
  lemma PrefixedTermFindsKey(translations: map<string, string>, header: Row, row: Row, stem: string)
    requires '/' !in stem
    requires ConvertRow(header, row, stem, true).Some?
    requires ConvertRow(header, row, stem, true).value.term !in translations
    ensures var key := Column(header, row, KeyField(header));
      UiTranslateManger.HandleTextTermTranslation(translations, ConvertRow(header, row, stem, true).value.term)
      == if key in translations then Some(translations[key]) else None
  {
    UiTranslateManger.SegmentFallback(translations, stem, Column(header, row, KeyField(header)));
  }

  /** The row a record is written as. */
  function RecordRow(r: TermRecord): Row
  {
    [r.term, r.original, r.translation]
  }

  function RecordRows(records: seq<TermRecord>): (r: seq<Row>)
    ensures |r| == |records|
    ensures forall k :: 0 <= k < |records| ==> r[k] == RecordRow(records[k])
  {
    seq(|records|, k requires 0 <= k < |records| => RecordRow(records[k]))
  }

  /** The outcome of a conversion: the value returned (the record count,
      0, or -1 on an exception) and the rows of the output file. */
  datatype Outcome = Outcome(returned: int, output: seq<Row>)

  /** The outcome for the records gathered: the header and the records, or
      an empty file when there are none; a failing write returns -1. */
  function Written(records: seq<TermRecord>, writeFails: bool): (r: Outcome)
    ensures writeFails ==> r.returned == -1
    ensures !writeFails ==> r.returned == |records|
    ensures !writeFails && records != [] ==> r.output == [OutputHeader] + RecordRows(records)
    ensures !writeFails && records == [] ==> r.output == []
  {
    if writeFails then Outcome(-1, [])
    else if records != [] then Outcome(|records|, [OutputHeader] + RecordRows(records))
    else Outcome(0, [])
  }

  /** `convert_single_csv`: the first row is the header and the rest, empty
      rows aside, are data rows converted in order. An unreadable input, a
      row on which the key search fails, or a failing write returns -1. */
  method ConvertSingleCsv(input: Option<seq<Row>>, stem: string, addPrefix: bool, writeFails: bool)
    returns (outcome: Outcome)
    ensures input.None? ==> outcome.returned == -1
    ensures input.Some? && input.value == [] ==> outcome == Written([], writeFails)
    ensures input.Some? && input.value != [] && AnyRaises(input.value[0], input.value[1..]) ==>
      outcome.returned == -1
    ensures input.Some? && input.value != [] && !AnyRaises(input.value[0], input.value[1..]) ==>
      outcome == Written(Records(input.value[0], input.value[1..], stem, addPrefix), writeFails)
  {
    if input.None? {
      return Outcome(-1, []);
    }
    if input.value == [] {
      return Written([], writeFails);
    }
    var header := input.value[0];
    var rows := input.value[1..];
    var outputData: seq<TermRecord> := [];
    var i := 0;
    while i < |rows|
      invariant 0 <= i <= |rows|
      invariant forall h :: 0 <= h < i ==> !Raises(header, rows[h])
      invariant outputData == Records(header, rows[..i], stem, addPrefix)
    {
      var row := rows[i];
      if row == [] {
        assert !Raises(header, row);
        RecordsSnoc(header, rows, i, stem, addPrefix);
        i := i + 1;
        continue;
      }
      var keyField := "Key";
      if keyField !in header {
        var found := FirstEndingWithKey(header);
        if found.None? && |row| > |header| {
          assert Raises(header, rows[i]);
          return Outcome(-1, []);
        }
        if found.Some? {
          keyField := found.value;
        }
      }
      assert !Raises(header, row) && keyField == KeyField(header);
      var key := Column(header, row, keyField);
      var japanese := Column(header, row, "Japanese");
      var english := Column(header, row, "English");
      RecordsSnoc(header, rows, i, stem, addPrefix);
      i := i + 1;
      if key == [] {
        continue;
      }
      var termValue := if addPrefix then stem + "/" + key else key;
      outputData := outputData + [TermRecord(termValue, japanese, english)];
    }
    assert rows[..|rows|] == rows;
    return Written(outputData, writeFails);
  }
}
