/** `TxtTranslationFileProcessor`: reads `original<TAB>translation` lines.
    Empty lines and lines starting with `;` are comments; a line starting
    with `$` defines a regular-expression translation. The `Unescape`
    string extension is a parameter of the model. */
module TxtTranslationFileProcessor {
  import opened Wrappers
  import opened Text
  import opened Upserts
  import opened TranslationLoadResult

  /** XUAT's marker character, stripped from every translation. */
  const MarkerChar: char := '᠎'

  /** What one line contributes. */
  datatype LineEntry =
    | NoEntry
    | PlainEntry(original: string, translation: string)
    | RegexEntry(pattern: string, translation: string)

  /** `line.Split(new[] { '\t' }, 2)` when it yields two parts: the text
      before the first tab and everything after it. */
  function SplitFirstTab(line: string): (r: Option<(string, string)>)
    ensures r.None? <==> '\t' !in line
    ensures r.Some? ==> line == r.value.0 + "\t" + r.value.1 && '\t' !in r.value.0
  {
    var k := IndexOfChar(line, '\t');
    if k == -1 then None
    else
      assert line == line[..k] + "\t" + line[k + 1..];
      Some((line[..k], line[k + 1..]))
  }

  /** The entry a line defines; `unescape` is `Unescape`. This processor
      removes the marker character from translations (`removeMarker`);
      `TextTranslator` applies the same rules without that step. */
  function ParseLine(line: string, unescape: string -> string, removeMarker: bool): LineEntry
  {
    if line == [] || StartsWith(line, ";") then NoEntry
    else match SplitFirstTab(line)
      case None => NoEntry
      case Some((a, b)) =>
        var original := unescape(a);
        var translation := CleanTranslation(b, unescape, removeMarker);
        if original == [] || translation == [] then NoEntry
        else if StartsWith(line, "$") then RegexEntry(original[1..], translation)
        else PlainEntry(original, translation)
  }

  /** The plain pair an entry contributes, if any. */
  function PlainOf(e: LineEntry): seq<(string, string)>
  {
    if e.PlainEntry? then [(e.original, e.translation)] else []
  }

  /** The pattern pair an entry contributes, if any. */
  function RegexOf(e: LineEntry): seq<(string, string)>
  {
    if e.RegexEntry? then [(e.pattern, e.translation)] else []
  }

  /** The plain pairs the lines define, in order. */
  function PlainPairs(lines: seq<string>, unescape: string -> string, removeMarker: bool): (r: seq<(string, string)>)
    ensures |r| <= |lines|
    decreases |lines|
  {
    if lines == [] then []
    else PlainPairs(lines[..|lines| - 1], unescape, removeMarker) + PlainOf(ParseLine(lines[|lines| - 1], unescape, removeMarker))
  }

  /** The regular-expression pairs the lines define, in order. */
  function RegexPairs(lines: seq<string>, unescape: string -> string, removeMarker: bool): (r: seq<(string, string)>)
    ensures |r| <= |lines|
    decreases |lines|
  {
    if lines == [] then []
    else RegexPairs(lines[..|lines| - 1], unescape, removeMarker) + RegexOf(ParseLine(lines[|lines| - 1], unescape, removeMarker))
  }

  /** How many lines define an entry. */
  function Accepted(lines: seq<string>, unescape: string -> string, removeMarker: bool): nat
    decreases |lines|
  {
    if lines == [] then 0
    else (Accepted(lines[..|lines| - 1], unescape, removeMarker)
          + if ParseLine(lines[|lines| - 1], unescape, removeMarker) == NoEntry then 0 else 1)
  }

  /** What one more line adds to the three folds. */
  lemma LinesSnoc(lines: seq<string>, i: int, unescape: string -> string, removeMarker: bool)
    requires 0 <= i < |lines|
    ensures var e := ParseLine(lines[i], unescape, removeMarker);
      && Accepted(lines[..i + 1], unescape, removeMarker) == Accepted(lines[..i], unescape, removeMarker) + (if e == NoEntry then 0 else 1)
      && PlainPairs(lines[..i + 1], unescape, removeMarker) == PlainPairs(lines[..i], unescape, removeMarker) + PlainOf(e)
      && RegexPairs(lines[..i + 1], unescape, removeMarker) == RegexPairs(lines[..i], unescape, removeMarker) + RegexOf(e)
  {
    assert lines[..i + 1][..i] == lines[..i];
  }

  /** The step of the loops that read a file: a count, table and pattern
      list that match the first `i` lines, updated by line `i` as
      `ProcessTranslationLine` updates them, match the first `i + 1`. */
  lemma LoadStep(m0: map<string, string>, rx0: seq<(string, string)>, lines: seq<string>, i: int,
                 unescape: string -> string, removeMarker: bool,
                 count: nat, m: map<string, string>, rx: seq<(string, string)>,
                 ok: bool, m': map<string, string>, rx': seq<(string, string)>)
    requires 0 <= i < |lines|
    requires count == Accepted(lines[..i], unescape, removeMarker)
    requires m == Upsert(m0, PlainPairs(lines[..i], unescape, removeMarker))
    requires rx == rx0 + RegexPairs(lines[..i], unescape, removeMarker)
    requires ok <==> ParseLine(lines[i], unescape, removeMarker) != NoEntry
    requires m' == Upsert(m, PlainOf(ParseLine(lines[i], unescape, removeMarker)))
    requires rx' == rx + RegexOf(ParseLine(lines[i], unescape, removeMarker))
    ensures (if ok then count + 1 else count) == Accepted(lines[..i + 1], unescape, removeMarker)
    ensures m' == Upsert(m0, PlainPairs(lines[..i + 1], unescape, removeMarker))
    ensures rx' == rx0 + RegexPairs(lines[..i + 1], unescape, removeMarker)
  {
    LinesSnoc(lines, i, unescape, removeMarker);
    UpsertAppend(m0, PlainPairs(lines[..i], unescape, removeMarker), PlainOf(ParseLine(lines[i], unescape, removeMarker)));
  }

  /** `ProcessTranslationLine`: stores the line's entry, reporting whether
      there was one. */
  method ProcessTranslationLine(line: string, result: LoadResult, unescape: string -> string)
    returns (ok: bool)
    modifies result
    ensures ok <==> ParseLine(line, unescape, true) != NoEntry
    ensures result.translations == Upsert(old(result.translations), PlainOf(ParseLine(line, unescape, true)))
    ensures result.regexTranslations == old(result.regexTranslations) + RegexOf(ParseLine(line, unescape, true))
    ensures result.elapsedMilliseconds == old(result.elapsedMilliseconds)
    ensures result.totalEntries == old(result.totalEntries)
    ensures result.totalFiles == old(result.totalFiles)
  {
    if line == [] || StartsWith(line, ";") {
      return false;
    }
    var k := IndexOfChar(line, '\t');
    if k == -1 {
      return false;
    }
    var original := unescape(line[..k]);
    var translation := RemoveChar(unescape(line[k + 1..]), MarkerChar);
    if original == [] || translation == [] {
      return false;
    }
    ghost var m := result.translations;
    if StartsWith(line, "$") {
      result.regexTranslations := result.regexTranslations + [(original[1..], translation)];
      assert Upsert(m, []) == m;
    } else {
      result.translations := result.translations[original := translation];
      UpsertSnoc(m, [], (original, translation));
      assert [] + [(original, translation)] == [(original, translation)];
    }
    return true;
  }

  /** One pass of the `ProcessStream` loop: line `i` is processed and
      counted, extending what the first `i` lines stored. */
  method ProcessLineOf(lines: seq<string>, i: int, result: LoadResult, unescape: string -> string,
                       ghost m0: map<string, string>, ghost rx0: seq<(string, string)>, count: nat)
    returns (count': nat)
    modifies result
    requires 0 <= i < |lines|
    requires count == Accepted(lines[..i], unescape, true)
    requires result.translations == Upsert(m0, PlainPairs(lines[..i], unescape, true))
    requires result.regexTranslations == rx0 + RegexPairs(lines[..i], unescape, true)
    ensures count' == Accepted(lines[..i + 1], unescape, true)
    ensures result.translations == Upsert(m0, PlainPairs(lines[..i + 1], unescape, true))
    ensures result.regexTranslations == rx0 + RegexPairs(lines[..i + 1], unescape, true)
    ensures result.elapsedMilliseconds == old(result.elapsedMilliseconds)
    ensures result.totalEntries == old(result.totalEntries)
    ensures result.totalFiles == old(result.totalFiles)
  {
    ghost var m, rx := result.translations, result.regexTranslations;
    var ok := ProcessTranslationLine(lines[i], result, unescape);
    LoadStep(m0, rx0, lines, i, unescape, true, count, m, rx, ok, result.translations, result.regexTranslations);
    count' := if ok then count + 1 else count;
  }

  /** `ProcessStream` (and `ProcessFile`, which differs only in how it
      reads the lines): every line in order, counting those that define an
      entry. */
  method ProcessStream(lines: seq<string>, result: LoadResult, unescape: string -> string)
    returns (entriesCount: nat)
    modifies result
    ensures entriesCount == Accepted(lines, unescape, true)
    ensures result.translations == Upsert(old(result.translations), PlainPairs(lines, unescape, true))
    ensures result.regexTranslations == old(result.regexTranslations) + RegexPairs(lines, unescape, true)
    ensures result.elapsedMilliseconds == old(result.elapsedMilliseconds)
    ensures result.totalEntries == old(result.totalEntries)
    ensures result.totalFiles == old(result.totalFiles)
  {
    entriesCount := 0;
    var i := 0;
    while i < |lines|
      invariant 0 <= i <= |lines|
      invariant entriesCount == Accepted(lines[..i], unescape, true)
      invariant result.translations == Upsert(old(result.translations), PlainPairs(lines[..i], unescape, true))
      invariant result.regexTranslations == old(result.regexTranslations) + RegexPairs(lines[..i], unescape, true)
      invariant result.elapsedMilliseconds == old(result.elapsedMilliseconds)
      invariant result.totalEntries == old(result.totalEntries)
      invariant result.totalFiles == old(result.totalFiles)
    {
      entriesCount := ProcessLineOf(lines, i, result, unescape, old(result.translations), old(result.regexTranslations), entriesCount);
      i := i + 1;
    }
    assert lines[..i] == lines;
  }

  /** Only the first tab separates: the translation keeps any later tabs. */
  lemma FirstTabSplits(a: string, b: string)
    requires '\t' !in a
    ensures SplitFirstTab(a + "\t" + b) == Some((a, b))
  {
    var line := a + "\t" + b;
    var r := SplitFirstTab(line);
    assert line[|a|] == '\t' && '\t' in line;
    assert forall i :: 0 <= i < |a| ==> line[i] == a[i];
    assert '\t' !in line[..|a|];
    assert IndexOfChar(line, '\t') == |a|;
    assert line[..|a|] == a && line[|a| + 1..] == b;
  }

  /** A comment, an empty line and a line without a tab define nothing,
      and neither does a line whose unescaped halves are empty once the
      marker is removed from the translation. */
  lemma RejectedLines(line: string, unescape: string -> string, removeMarker: bool)
    ensures line == [] || StartsWith(line, ";") || '\t' !in line ==> ParseLine(line, unescape, removeMarker) == NoEntry
    ensures SplitFirstTab(line).Some? && (unescape(SplitFirstTab(line).value.0) == []
        || CleanTranslation(SplitFirstTab(line).value.1, unescape, removeMarker) == [])
      ==> ParseLine(line, unescape, removeMarker) == NoEntry
  {
  }

  /** The translation half after unescaping, with the marker character
      removed when `removeMarker` is set. */
  function CleanTranslation(b: string, unescape: string -> string, removeMarker: bool): string
  {
    if removeMarker then RemoveChar(unescape(b), MarkerChar) else unescape(b)
  }

  /** A well-formed line `a<TAB>b` defines the unescaped pair, an ordinary
      entry or (after a leading `$`) a pattern without the `$`. */
  lemma AcceptedLine(a: string, b: string, unescape: string -> string, removeMarker: bool)
    requires '\t' !in a && a != [] && a[0] != ';'
    requires unescape(a) != [] && CleanTranslation(b, unescape, removeMarker) != []
    ensures a[0] != '$' ==>
      ParseLine(a + "\t" + b, unescape, removeMarker) == PlainEntry(unescape(a), CleanTranslation(b, unescape, removeMarker))
    ensures a[0] == '$' ==>
      ParseLine(a + "\t" + b, unescape, removeMarker) == RegexEntry(unescape(a)[1..], CleanTranslation(b, unescape, removeMarker))
  {
    FirstTabSplits(a, b);
    var line := a + "\t" + b;
    assert line[0] == a[0];
    assert StartsWith(line, ";") <==> line[..1] == ";";
    assert line[..1] == [a[0]];
  }

  /** Every translation a file stores is free of the marker character, so
      XUAT's marker reaches the text only through `MarkTranslated`. */
  lemma {:induction false} PlainPairsUnmarked(lines: seq<string>, unescape: string -> string, removeMarker: bool)
    ensures forall j :: 0 <= j < |PlainPairs(lines, unescape, removeMarker)| ==>
      (removeMarker ==> MarkerChar !in PlainPairs(lines, unescape, removeMarker)[j].1)
      && PlainPairs(lines, unescape, removeMarker)[j].1 != []
    decreases |lines|
  {
    if lines != [] {
      PlainPairsUnmarked(lines[..|lines| - 1], unescape, removeMarker);
    }
  }

  /** Loading lines into a table without the marker character leaves it
      without one. */
  lemma StoredTranslationsUnmarked(m: map<string, string>, lines: seq<string>, unescape: string -> string)
    requires forall k :: k in m ==> MarkerChar !in m[k]
    ensures forall k :: k in Upsert(m, PlainPairs(lines, unescape, true)) ==>
      MarkerChar !in Upsert(m, PlainPairs(lines, unescape, true))[k]
  {
    PlainPairsUnmarked(lines, unescape, true);
    UpsertValues(m, PlainPairs(lines, unescape, true), (t: string) => MarkerChar !in t);
  }

  /** The count is the number of stored entries of either kind. */
  lemma {:induction false} AcceptedCounts(lines: seq<string>, unescape: string -> string, removeMarker: bool)
    ensures Accepted(lines, unescape, removeMarker) == |PlainPairs(lines, unescape, removeMarker)| + |RegexPairs(lines, unescape, removeMarker)|
    decreases |lines|
  {
    if lines != [] {
      AcceptedCounts(lines[..|lines| - 1], unescape, removeMarker);
    }
  }

  /** An original that no line defines keeps its presence and its
      translation; in particular `$` lines never touch the plain table. */
  lemma UndefinedOriginalUntouched(m: map<string, string>, lines: seq<string>, k: string,
                                   unescape: string -> string, removeMarker: bool)
    requires forall j :: 0 <= j < |lines| ==> !Defines(lines[j], k, unescape, removeMarker)
    ensures k in Upsert(m, PlainPairs(lines, unescape, removeMarker)) <==> k in m
    ensures k in m ==> Upsert(m, PlainPairs(lines, unescape, removeMarker))[k] == m[k]
  {
    PlainPairsAvoid(lines, k, unescape, removeMarker);
    UpsertUntouched(m, PlainPairs(lines, unescape, removeMarker), k);
  }

  /** The line is an ordinary entry for original `k`. */
  predicate Defines(line: string, k: string, unescape: string -> string, removeMarker: bool)
  {
    ParseLine(line, unescape, removeMarker).PlainEntry? && ParseLine(line, unescape, removeMarker).original == k
  }

  /** Of two lines for the same original, the later one wins. */
  lemma LaterLineWins(m: map<string, string>, a: seq<string>, line: string, b: seq<string>,
                      unescape: string -> string, removeMarker: bool)
    requires ParseLine(line, unescape, removeMarker).PlainEntry?
    requires forall j :: 0 <= j < |b| ==> !Defines(b[j], ParseLine(line, unescape, removeMarker).original, unescape, removeMarker)
    ensures var e := ParseLine(line, unescape, removeMarker);
      e.original in Upsert(m, PlainPairs(a + [line] + b, unescape, removeMarker))
      && Upsert(m, PlainPairs(a + [line] + b, unescape, removeMarker))[e.original] == e.translation
  {
    var e := ParseLine(line, unescape, removeMarker);
    PlainPairsAppend(a + [line], b, unescape, removeMarker);
    PlainPairsAppend(a, [line], unescape, removeMarker);
    assert PlainPairs([line], unescape, removeMarker) == [(e.original, e.translation)] by {
      assert [line][..0] == [];
    }
    var pa := PlainPairs(a, unescape, removeMarker);
    var pb := PlainPairs(b, unescape, removeMarker);
    var ps := pa + [(e.original, e.translation)] + pb;
    PlainPairsAvoid(b, e.original, unescape, removeMarker);
    forall j | |pa| < j < |ps| ensures ps[j].0 != e.original {
      assert ps[j] == pb[j - |pa| - 1];
    }
    UpsertLastWins(m, ps, |pa|);
  }

  /** The pairs of concatenated lines are concatenated. */
  lemma {:induction false} PlainPairsAppend(a: seq<string>, b: seq<string>, unescape: string -> string, removeMarker: bool)
    ensures PlainPairs(a + b, unescape, removeMarker) == PlainPairs(a, unescape, removeMarker) + PlainPairs(b, unescape, removeMarker)
    decreases |b|
  {
    if b == [] {
      assert a + b == a;
    } else {
      var init := b[..|b| - 1];
      assert (a + b)[..|a + b| - 1] == a + init;
      assert (a + b)[|a + b| - 1] == b[|b| - 1];
      PlainPairsAppend(a, init, unescape, removeMarker);
    }
  }

  /** The pattern pairs of concatenated lines are concatenated. */
  lemma {:induction false} RegexPairsAppend(a: seq<string>, b: seq<string>, unescape: string -> string, removeMarker: bool)
    ensures RegexPairs(a + b, unescape, removeMarker) == RegexPairs(a, unescape, removeMarker) + RegexPairs(b, unescape, removeMarker)
    decreases |b|
  {
    if b == [] {
      assert a + b == a;
    } else {
      var init := b[..|b| - 1];
      assert (a + b)[..|a + b| - 1] == a + init;
      assert (a + b)[|a + b| - 1] == b[|b| - 1];
      RegexPairsAppend(a, init, unescape, removeMarker);
    }
  }

  /** A key that no line defines as an original is the key of no pair. */
  lemma {:induction false} PlainPairsAvoid(lines: seq<string>, k: string, unescape: string -> string, removeMarker: bool)
    requires forall j :: 0 <= j < |lines| ==> !Defines(lines[j], k, unescape, removeMarker)
    ensures forall j :: 0 <= j < |PlainPairs(lines, unescape, removeMarker)| ==> PlainPairs(lines, unescape, removeMarker)[j].0 != k
    decreases |lines|
  {
    if lines != [] {
      var init := lines[..|lines| - 1];
      assert forall j :: 0 <= j < |init| ==> init[j] == lines[j];
      PlainPairsAvoid(init, k, unescape, removeMarker);
    }
  }
}
