/** `LyricManger.LoadSubtitle`: a lyric file is read line by line into
    `CurrentLyrics`, each line being `startTime,endTime,originalLyric,translatedLyric`
    split at every comma. The two times are floats; the model is generic in
    the float type `F` and takes `float.TryParse` (any number style,
    invariant culture) as a parameter `tryParse`. */
module LyricManger {
  import opened Wrappers
  import opened Text

  /** `LyricEntry`. */
  datatype LyricEntry<F> = LyricEntry(startTime: F, endTime: F, originalText: string, translatedText: string)

  /** A text with no white space at either end: its own trim. */
  predicate IsTrimmed(s: string)
  {
    Trim(s, WhiteSpace) == s
  }

  /** The entry a line gives, if any, where `ws` is the set of characters
      trimming removes: the trimmed line must be non-empty and have exactly
      four comma-separated fields, the two time fields trimmed must be
      non-empty and parse as floats; the two text fields are trimmed and may
      be empty. */
  function ParseLineWith<F>(line: string, ws: set<char>, tryParse: string -> Option<F>): Option<LyricEntry<F>>
  {
    var trimmed := Trim(line, ws);
    if trimmed == [] then None else EntryOfFields(Split(trimmed, ','), ws, tryParse)
  }

  /** The entry the comma-separated fields of a trimmed line give. */
  function EntryOfFields<F>(fields: seq<string>, ws: set<char>, tryParse: string -> Option<F>): Option<LyricEntry<F>>
  {
    if |fields| != 4 then None
    else
      var startTimeStr := Trim(fields[0], ws);
      var endTimeStr := Trim(fields[1], ws);
      if startTimeStr == [] || endTimeStr == [] then None
      else if tryParse(startTimeStr).Some? && tryParse(endTimeStr).Some? then
        Some(LyricEntry(tryParse(startTimeStr).value, tryParse(endTimeStr).value,
                        Trim(fields[2], ws), Trim(fields[3], ws)))
      else None
  }

  /** The entry a line of the file gives, trimming .NET white space. */
  function ParseLine<F>(line: string, tryParse: string -> Option<F>): Option<LyricEntry<F>>
  {
    ParseLineWith(line, WhiteSpace, tryParse)
  }

  /** `ParseLineShape` for any set of trimmed characters. */
  lemma ParseLineShapeWith<F>(line: string, ws: set<char>, tryParse: string -> Option<F>)
    ensures Trim(line, ws) == [] ==> ParseLineWith(line, ws, tryParse) == None
    ensures |Split(Trim(line, ws), ',')| != 4 ==> ParseLineWith(line, ws, tryParse) == None
    ensures var r := ParseLineWith(line, ws, tryParse);
      r.Some? ==> Trim(r.value.originalText, ws) == r.value.originalText
                  && Trim(r.value.translatedText, ws) == r.value.translatedText
    ensures var r := ParseLineWith(line, ws, tryParse);
      r.Some? ==> ',' !in r.value.originalText && ',' !in r.value.translatedText
  {
    var trimmed := Trim(line, ws);
    var fields := Split(trimmed, ',');
    if ParseLineWith(line, ws, tryParse).Some? {
      TrimIdempotent(fields[2], ws);
      TrimIdempotent(fields[3], ws);
      SplitPiecesFree(trimmed, ',');
      TrimChars(fields[2], ws);
      TrimChars(fields[3], ws);
    }
  }

  /** Blank lines and lines without exactly four fields are skipped; the
      text of an entry is trimmed and holds no comma. */
  lemma ParseLineShape<F>(line: string, tryParse: string -> Option<F>)
    ensures Trim(line, WhiteSpace) == [] ==> ParseLine(line, tryParse) == None
    ensures |Split(Trim(line, WhiteSpace), ',')| != 4 ==> ParseLine(line, tryParse) == None
    ensures var r := ParseLine(line, tryParse);
      r.Some? ==> IsTrimmed(r.value.originalText) && IsTrimmed(r.value.translatedText)
    ensures var r := ParseLine(line, tryParse);
      r.Some? ==> ',' !in r.value.originalText && ',' !in r.value.translatedText
  {
    ParseLineShapeWith(line, WhiteSpace, tryParse);
  }

  /** No piece of a split contains the separator. */
  lemma {:induction false} SplitPiecesFree<T>(s: seq<T>, c: T)
    ensures forall i :: 0 <= i < |Split(s, c)| ==> c !in Split(s, c)[i]
    decreases |s|
  {
    if s != [] {
      SplitPiecesFree(s[1..], c);
    }
  }

  /** The values of the present options, in order. */
  function Present<T>(opts: seq<Option<T>>): (r: seq<T>)
    ensures |r| <= |opts|
  {
    if opts == [] then []
    else
      var last := opts[|opts| - 1];
      Present(opts[..|opts| - 1]) + (if last.Some? then [last.value] else [])
  }

  /** One more option, `next`. */
  lemma PresentSnoc<T>(opts: seq<Option<T>>, i: int, next: Option<T>)
    requires 0 <= i < |opts| && opts[i] == next
    ensures Present(opts[..i + 1]) == Present(opts[..i]) + (if next.Some? then [next.value] else [])
  {
    assert opts[..i + 1][..i] == opts[..i];
  }

  /** The present values of two runs of options are those of the first
      followed by those of the second. */
  lemma {:induction false} PresentAppend<T>(a: seq<Option<T>>, b: seq<Option<T>>)
    ensures Present(a + b) == Present(a) + Present(b)
    decreases |b|
  {
    if b == [] {
      assert a + b == a;
    } else {
      assert (a + b)[..|a + b| - 1] == a + b[..|b| - 1];
      PresentAppend(a, b[..|b| - 1]);
    }
  }

  /** What `parse` makes of each line. */
  function Parsed<T>(lines: seq<string>, parse: string -> Option<T>): (r: seq<Option<T>>)
    ensures |r| == |lines|
    ensures forall i :: 0 <= i < |lines| ==> r[i] == parse(lines[i])
    decreases |lines|
  {
    if lines == [] then []
    else Parsed(lines[..|lines| - 1], parse) + [parse(lines[|lines| - 1])]
  }

  /** Parsing lines one by one commutes with joining runs of them. */
  lemma ParsedAppend<T>(a: seq<string>, b: seq<string>, parse: string -> Option<T>)
    ensures Parsed(a + b, parse) == Parsed(a, parse) + Parsed(b, parse)
  {
    var l, r := Parsed(a + b, parse), Parsed(a, parse) + Parsed(b, parse);
    forall i | 0 <= i < |l|
      ensures l[i] == r[i]
    {
      if i < |a| {
        assert (a + b)[i] == a[i];
      } else {
        assert (a + b)[i] == b[i - |a|];
      }
    }
  }

  /** `ParseLine` as a function value. */
  function LineParser<F>(tryParse: string -> Option<F>): string -> Option<LyricEntry<F>>
  {
    line => ParseLine(line, tryParse)
  }

  /** The entries of the lines, in file order, one for each line
      `ParseLine` accepts. */
  function LyricEntries<F>(lines: seq<string>, tryParse: string -> Option<F>): (r: seq<LyricEntry<F>>)
    ensures |r| <= |lines|
  {
    Present(Parsed(lines, LineParser(tryParse)))
  }

  /** The entries of two runs of lines are those of the first run followed
      by those of the second. */
  lemma LyricEntriesAppend<F>(a: seq<string>, b: seq<string>, tryParse: string -> Option<F>)
    ensures LyricEntries(a + b, tryParse) == LyricEntries(a, tryParse) + LyricEntries(b, tryParse)
  {
    var parse := LineParser(tryParse);
    ParsedAppend(a, b, parse);
    PresentAppend(Parsed(a, parse), Parsed(b, parse));
  }

  /** No lines, no entries. */
  lemma EntriesOfNoLines<F>(lines: seq<string>, tryParse: string -> Option<F>)
    ensures LyricEntries(lines[..0], tryParse) == []
  {
  }

  /** Reading line `i` after the lines before it adds the entries of that
      line at the end. */
  lemma LyricEntriesSnoc<F>(lines: seq<string>, i: int, tryParse: string -> Option<F>, next: seq<LyricEntry<F>>)
    requires 0 <= i < |lines| && LyricEntries([lines[i]], tryParse) == next
    ensures LyricEntries(lines[..i + 1], tryParse) == LyricEntries(lines[..i], tryParse) + next
  {
    TakeOneMore(lines, i);
    LyricEntriesAppend(lines[..i], [lines[i]], tryParse);
  }

  /** A prefix one longer ends with the next element. */
  lemma TakeOneMore<T>(s: seq<T>, i: int)
    requires 0 <= i < |s|
    ensures s[..i + 1] == s[..i] + [s[i]]
  {
  }

  /** A single line gives the entry `ParseLine` makes of it, if any. */
  lemma EntriesOfOneLine<F>(line: string, tryParse: string -> Option<F>)
    ensures LyricEntries([line], tryParse)
      == if ParseLine(line, tryParse).Some? then [ParseLine(line, tryParse).value] else []
  {
    var parse := LineParser(tryParse);
    PresentParsedOne(line, parse);
    assert parse(line) == ParseLine(line, tryParse);
  }

  /** The present value of one parsed line. */
  lemma PresentParsedOne<T>(line: string, parse: string -> Option<T>)
    ensures Present(Parsed([line], parse)) == if parse(line).Some? then [parse(line).value] else []
  {
    var parsed := Parsed([line], parse);
    assert parsed[..0] == [];
    PresentSnoc(parsed, 0, parse(line));
    assert parsed[..1] == parsed;
  }

  /** `LineRoundTrip` for any set of trimmed characters without the
      comma. */
  lemma LineRoundTripWith<F>(a: string, b: string, c: string, d: string, ws: set<char>,
                             tryParse: string -> Option<F>)
    requires ',' !in a && ',' !in b && ',' !in c && ',' !in d && ',' !in ws
    requires a != [] && b != [] && Trim(a, ws) == a && Trim(b, ws) == b && Trim(c, ws) == c && Trim(d, ws) == d
    requires tryParse(a).Some? && tryParse(b).Some?
    ensures ParseLineWith(a + "," + b + "," + c + "," + d, ws, tryParse)
      == Some(LyricEntry(tryParse(a).value, tryParse(b).value, c, d))
  {
    var line := a + "," + b + "," + c + "," + d;
    SplitFour(a, b, c, d);
    TrimmedLine(a, b, c, d, ws);
    FourFields(line, a, b, c, d, ws, tryParse);
  }

  /** Four comma-free fields joined by commas split back into
      themselves. */
  lemma SplitFour(a: string, b: string, c: string, d: string)
    requires ',' !in a && ',' !in b && ',' !in c && ',' !in d
    ensures Split(a + "," + b + "," + c + "," + d, ',') == [a, b, c, d]
  {
    var items := [a, b, c, d];
    forall i | 0 <= i < |items| ensures ',' !in items[i] {
      if i == 0 { assert items[i] == a; }
      else if i == 1 { assert items[i] == b; }
      else if i == 2 { assert items[i] == c; }
      else { assert items[i] == d; }
    }
    Join4(a, b, c, d, ",");
    SplitJoin(items, ',');
  }

  /** A trimmed, non-empty line that splits into four trimmed fields,
      both times parsing, gives the entry made of those fields. */
  lemma FourFields<F>(line: string, a: string, b: string, c: string, d: string, ws: set<char>,
                      tryParse: string -> Option<F>)
    requires line != [] && Trim(line, ws) == line && Split(line, ',') == [a, b, c, d]
    requires a != [] && b != [] && Trim(a, ws) == a && Trim(b, ws) == b && Trim(c, ws) == c && Trim(d, ws) == d
    requires tryParse(a).Some? && tryParse(b).Some?
    ensures ParseLineWith(line, ws, tryParse) == Some(LyricEntry(tryParse(a).value, tryParse(b).value, c, d))
  {
    TrimmedLineFields(line, ws, tryParse);
    FourTrimmedFields(a, b, c, d, ws, tryParse);
  }

  /** A trimmed, non-empty line gives the entry of its fields. */
  lemma TrimmedLineFields<F>(line: string, ws: set<char>, tryParse: string -> Option<F>)
    requires line != [] && Trim(line, ws) == line
    ensures ParseLineWith(line, ws, tryParse) == EntryOfFields(Split(line, ','), ws, tryParse)
  {
  }

  /** Four trimmed fields, both times parsing, give the entry made of
      them. */
  lemma FourTrimmedFields<F>(a: string, b: string, c: string, d: string, ws: set<char>,
                             tryParse: string -> Option<F>)
    requires a != [] && b != [] && Trim(a, ws) == a && Trim(b, ws) == b && Trim(c, ws) == c && Trim(d, ws) == d
    requires tryParse(a).Some? && tryParse(b).Some?
    ensures EntryOfFields([a, b, c, d], ws, tryParse) == Some(LyricEntry(tryParse(a).value, tryParse(b).value, c, d))
  {
  }

  /** The comma is not white space. */
  lemma CommaNotWhiteSpace()
    ensures ',' !in WhiteSpace
  {
  }

  /** A line written from four comma-free, already trimmed fields, with
      non-empty times, is read back field for field when both times
      parse. */
  lemma LineRoundTrip<F>(a: string, b: string, c: string, d: string, tryParse: string -> Option<F>)
    requires ',' !in a && ',' !in b && ',' !in c && ',' !in d
    requires a != [] && b != [] && IsTrimmed(a) && IsTrimmed(b) && IsTrimmed(c) && IsTrimmed(d)
    requires tryParse(a).Some? && tryParse(b).Some?
    ensures ParseLine(a + "," + b + "," + c + "," + d, tryParse)
      == Some(LyricEntry(tryParse(a).value, tryParse(b).value, c, d))
  {
    CommaNotWhiteSpace();
    LineRoundTripWith(a, b, c, d, WhiteSpace, tryParse);
  }

  /** A line whose first field is trimmed and non-empty and whose last
      field is trimmed is already trimmed. */
  lemma TrimmedLine(a: string, b: string, c: string, d: string, ws: set<char>)
    requires a != [] && Trim(a, ws) == a && Trim(d, ws) == d && ',' !in ws
    ensures Trim(a + "," + b + "," + c + "," + d, ws) == a + "," + b + "," + c + "," + d
  {
    var line := a + "," + b + "," + c + "," + d;
    var last := if d == [] then ',' else d[|d| - 1];
    assert a[0] !in ws by { TrimShape(a, ws); }
    assert last !in ws by { TrimShape(d, ws); }
    assert line[0] == a[0];
    assert line[|line| - 1] == last;
    EndsNotTrimmed(line, a[0], last, ws);
  }

  /** A text whose first and last characters are not trimmed is its own
      trim. */
  lemma EndsNotTrimmed(s: string, first: char, last: char, ws: set<char>)
    requires s != [] && s[0] == first && s[|s| - 1] == last
    requires first !in ws && last !in ws
    ensures Trim(s, ws) == s
  {
    TrimStartNoop(s, ws);
    TrimEndNoop(s, ws);
  }

  /** `CommaInLyricSkipsLine` for any set of trimmed characters without
      the comma. */
  lemma CommaInLyricSkipsLineWith<F>(a: string, b: string, c1: string, c2: string, d: string, ws: set<char>,
                                     tryParse: string -> Option<F>)
    requires ',' !in a && ',' !in b && ',' !in c1 && ',' !in c2 && ',' !in d && ',' !in ws
    requires a != [] && Trim(a, ws) == a && Trim(d, ws) == d
    ensures ParseLineWith(a + "," + b + "," + (c1 + "," + c2) + "," + d, ws, tryParse) == None
  {
    var line := a + "," + b + "," + (c1 + "," + c2) + "," + d;
    var items := [a, b, c1, c2, d];
    assert Join(items, ",") == line by {
      assert items[..4] == [a, b, c1, c2];
      Join4(a, b, c1, c2, ",");
      assert Join(items, ",") == Join([a, b, c1, c2], ",") + "," + d;
    }
    SplitJoin(items, ',');
    TrimmedLine(a, b, c1 + "," + c2, d, ws);
  }

  /** Fields are split at every comma, with no quoting: a line whose lyric
      holds a comma has five fields and is skipped. */
  lemma CommaInLyricSkipsLine<F>(a: string, b: string, c1: string, c2: string, d: string,
                                 tryParse: string -> Option<F>)
    requires ',' !in a && ',' !in b && ',' !in c1 && ',' !in c2 && ',' !in d
    requires a != [] && IsTrimmed(a) && IsTrimmed(d)
    ensures ParseLine(a + "," + b + "," + (c1 + "," + c2) + "," + d, tryParse) == None
  {
    CommaNotWhiteSpace();
    CommaInLyricSkipsLineWith(a, b, c1, c2, d, WhiteSpace, tryParse);
  }

  class Manager<F> {
    /** `CurrentLyrics`. */
    var currentLyrics: seq<LyricEntry<F>>

    constructor ()
      ensures currentLyrics == []
    {
      currentLyrics := [];
    }

    /** `LoadSubtitle`, given whether the file exists and its lines: the
        list is emptied, and a missing file leaves it empty. The first line
        is kept only if it is a valid entry (so a header is skipped), and
        every later line by the same rule. */
    method LoadSubtitle(fileExists: bool, lines: seq<string>, tryParse: string -> Option<F>)
      modifies this`currentLyrics
      ensures currentLyrics == if fileExists then LyricEntries(lines, tryParse) else []
    {
      currentLyrics := [];
      if !fileExists {
        return;
      }
      var lineNumber := 0;
      EntriesOfNoLines(lines, tryParse);
      if lineNumber < |lines| {
        KeepLine(lines, lineNumber, tryParse, true);
        lineNumber := lineNumber + 1;
      }
      while lineNumber < |lines|
        invariant 0 <= lineNumber <= |lines|
        invariant currentLyrics == LyricEntries(lines[..lineNumber], tryParse)
      {
        KeepLine(lines, lineNumber, tryParse, false);
        lineNumber := lineNumber + 1;
      }
      assert lines[..lineNumber] == lines;
    }

    /** Line `i` of `LoadSubtitle`, read as the first line or as a later
        one: its entry, if any, is added after those of the lines before. */
    method KeepLine(lines: seq<string>, i: int, tryParse: string -> Option<F>, first: bool)
      modifies this`currentLyrics
      requires 0 <= i < |lines| && currentLyrics == LyricEntries(lines[..i], tryParse)
      ensures currentLyrics == LyricEntries(lines[..i + 1], tryParse)
    {
      var entry;
      if first {
        entry := ReadFirstEntry(lines[i], tryParse);
      } else {
        entry := ReadEntry(lines[i], tryParse);
      }
      EntriesOfOneLine(lines[i], tryParse);
      LyricEntriesSnoc(lines, i, tryParse, if entry.Some? then [entry.value] else []);
      if entry.Some? {
        currentLyrics := currentLyrics + [entry.value];
      }
    }
  }

  /** The first line of `LoadSubtitle`, which the source reads by code
      of its own (it may be a header): it is kept under exactly the rule of
      every other line. */
  method ReadFirstEntry<F>(line: string, tryParse: string -> Option<F>) returns (entry: Option<LyricEntry<F>>)
    ensures entry == ParseLine(line, tryParse)
  {
    entry := None;
    var trimmedLine := Trim(line, WhiteSpace);
    if trimmedLine != [] {
      var fields := Split(trimmedLine, ',');
      var firstStartTimeStr := if |fields| > 0 then Trim(fields[0], WhiteSpace) else [];
      var firstEndTimeStr := if |fields| > 1 then Trim(fields[1], WhiteSpace) else [];
      if |fields| == 4 && firstStartTimeStr != [] && firstEndTimeStr != []
         && tryParse(firstStartTimeStr).Some? && tryParse(firstEndTimeStr).Some? {
        entry := Some(LyricEntry(tryParse(firstStartTimeStr).value, tryParse(firstEndTimeStr).value,
                                 Trim(fields[2], WhiteSpace), Trim(fields[3], WhiteSpace)));
      }
    }
  }

  /** The body of the reading loop of `LoadSubtitle`, for one line after
      the first: each rejection skips the line. */
  method ReadEntry<F>(line: string, tryParse: string -> Option<F>) returns (entry: Option<LyricEntry<F>>)
    ensures entry == ParseLine(line, tryParse)
  {
    var trimmedLine := Trim(line, WhiteSpace);
    if trimmedLine == [] {
      return None;
    }
    var fields := Split(trimmedLine, ',');
    if |fields| != 4 {
      return None;
    }
    var startTimeStr := Trim(fields[0], WhiteSpace);
    var endTimeStr := Trim(fields[1], WhiteSpace);
    var originalText := Trim(fields[2], WhiteSpace);
    var translatedText := Trim(fields[3], WhiteSpace);
    if startTimeStr == [] || endTimeStr == [] {
      return None;
    }
    if tryParse(startTimeStr).Some? && tryParse(endTimeStr).Some? {
      return Some(LyricEntry(tryParse(startTimeStr).value, tryParse(endTimeStr).value,
                             originalText, translatedText));
    }
    return None;
  }

  /** A header line (one that is not a valid entry) adds nothing: the
      entries are those of the lines after it. */
  lemma HeaderSkipped<F>(header: string, rest: seq<string>, tryParse: string -> Option<F>)
    requires ParseLine(header, tryParse).None?
    ensures LyricEntries([header] + rest, tryParse) == LyricEntries(rest, tryParse)
  {
    LyricEntriesAppend([header], rest, tryParse);
    assert [header][..0] == [];
  }
}
