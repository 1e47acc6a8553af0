/** `CsvTranslationFileProcessor`: loads `Term`/`Original`/`Translation`
    records into the plain translation table. CsvHelper's reading of the
    file into records is outside the model: the records are its input. */
module CsvTranslationFileProcessor {
  import opened Upserts
  import opened TranslationLoadResult

  /** `CsvEntry`; a null column is the empty string, which the processor
      treats alike. */
  datatype CsvEntry = CsvEntry(term: string, original: string, translation: string)

  /** A record is loaded when its term and its translation are non-empty. */
  predicate Usable(r: CsvEntry)
  {
    r.term != [] && r.translation != []
  }

  /** The (term, translation) pairs loaded, in order. */
  function CsvPairs(records: seq<CsvEntry>): (r: seq<(string, string)>)
    ensures |r| <= |records|
    decreases |records|
  {
    if records == [] then []
    else
      var last := records[|records| - 1];
      CsvPairs(records[..|records| - 1]) + (if Usable(last) then [(last.term, last.translation)] else [])
  }

  /** What one more record adds. */
  lemma RecordsSnoc(records: seq<CsvEntry>, i: int)
    requires 0 <= i < |records|
    ensures CsvPairs(records[..i + 1]) == CsvPairs(records[..i])
      + (if Usable(records[i]) then [(records[i].term, records[i].translation)] else [])
  {
    assert records[..i + 1][..i] == records[..i];
  }

  /** `ProcessStream`: every usable record sets its term; the count is the
      number of usable records. */
  method ProcessStream(records: seq<CsvEntry>, result: LoadResult) returns (entriesLoaded: nat)
    modifies result
    ensures entriesLoaded == |CsvPairs(records)|
    ensures result.translations == Upsert(old(result.translations), CsvPairs(records))
    ensures result.regexTranslations == old(result.regexTranslations)
    ensures result.elapsedMilliseconds == old(result.elapsedMilliseconds)
    ensures result.totalEntries == old(result.totalEntries)
    ensures result.totalFiles == old(result.totalFiles)
  {
    entriesLoaded := 0;
    var i := 0;
    while i < |records|
      invariant 0 <= i <= |records|
      invariant entriesLoaded == |CsvPairs(records[..i])|
      invariant result.translations == Upsert(old(result.translations), CsvPairs(records[..i]))
      invariant result.regexTranslations == old(result.regexTranslations)
      invariant result.elapsedMilliseconds == old(result.elapsedMilliseconds)
      invariant result.totalEntries == old(result.totalEntries)
      invariant result.totalFiles == old(result.totalFiles)
    {
      var record := records[i];
      RecordsSnoc(records, i);
      if record.term == [] || record.translation == [] {
        assert CsvPairs(records[..i + 1]) == CsvPairs(records[..i]);
        i := i + 1;
        continue;
      }
      UpsertSnoc(old(result.translations), CsvPairs(records[..i]), (record.term, record.translation));
      result.translations := result.translations[record.term := record.translation];
      entriesLoaded := entriesLoaded + 1;
      i := i + 1;
    }
    assert records[..i] == records;
  }

  /** The `Original` column plays no part in what is loaded. */
  lemma {:induction false} OriginalIgnored(records: seq<CsvEntry>, others: seq<CsvEntry>)
    requires |records| == |others|
    requires forall j :: 0 <= j < |records| ==>
      records[j].term == others[j].term && records[j].translation == others[j].translation
    ensures CsvPairs(records) == CsvPairs(others)
    decreases |records|
  {
    if records != [] {
      OriginalIgnored(records[..|records| - 1], others[..|others| - 1]);
    }
  }

  /** The record defines `k`. */
  predicate DefinesTerm(r: CsvEntry, k: string)
  {
    Usable(r) && r.term == k
  }

  /** A term that no usable record names is the key of no loaded pair. */
  lemma {:induction false} CsvPairsAvoid(records: seq<CsvEntry>, k: string)
    requires forall j :: 0 <= j < |records| ==> !DefinesTerm(records[j], k)
    ensures forall j :: 0 <= j < |CsvPairs(records)| ==> CsvPairs(records)[j].0 != k
    decreases |records|
  {
    if records != [] {
      var init := records[..|records| - 1];
      assert forall j :: 0 <= j < |init| ==> init[j] == records[j];
      CsvPairsAvoid(init, k);
    }
  }

  /** The pairs of concatenated records are concatenated. */
  lemma {:induction false} CsvPairsAppend(a: seq<CsvEntry>, b: seq<CsvEntry>)
    ensures CsvPairs(a + b) == CsvPairs(a) + CsvPairs(b)
    decreases |b|
  {
    if b == [] {
      assert a + b == a;
    } else {
      var init := b[..|b| - 1];
      assert (a + b)[..|a + b| - 1] == a + init;
      assert (a + b)[|a + b| - 1] == b[|b| - 1];
      CsvPairsAppend(a, init);
    }
  }

  /** Skipped records and other terms leave a term as it was. */
  lemma UndefinedTermUntouched(m: map<string, string>, records: seq<CsvEntry>, k: string)
    requires forall j :: 0 <= j < |records| ==> !DefinesTerm(records[j], k)
    ensures k in Upsert(m, CsvPairs(records)) <==> k in m
    ensures k in m ==> Upsert(m, CsvPairs(records))[k] == m[k]
  {
    CsvPairsAvoid(records, k);
    UpsertUntouched(m, CsvPairs(records), k);
  }

  /** The last usable record for a term decides its translation. */
  lemma LaterRecordWins(m: map<string, string>, a: seq<CsvEntry>, r: CsvEntry, b: seq<CsvEntry>)
    requires Usable(r)
    requires forall j :: 0 <= j < |b| ==> !DefinesTerm(b[j], r.term)
    ensures r.term in Upsert(m, CsvPairs(a + [r] + b))
    ensures Upsert(m, CsvPairs(a + [r] + b))[r.term] == r.translation
  {
    CsvPairsAppend(a + [r], b);
    CsvPairsAppend(a, [r]);
    assert CsvPairs([r]) == [(r.term, r.translation)] by {
      assert [r][..0] == [];
    }
    var pa := CsvPairs(a);
    var pb := CsvPairs(b);
    var ps := pa + [(r.term, r.translation)] + pb;
    CsvPairsAvoid(b, r.term);
    forall j | |pa| < j < |ps| ensures ps[j].0 != r.term {
      assert ps[j] == pb[j - |pa| - 1];
    }
    UpsertLastWins(m, ps, |pa|);
  }

  /** Every loaded translation is non-empty, so an empty translation never
      overwrites an existing one. */
  lemma {:induction false} LoadedNonEmpty(records: seq<CsvEntry>)
    ensures forall j :: 0 <= j < |CsvPairs(records)| ==>
      CsvPairs(records)[j].0 != [] && CsvPairs(records)[j].1 != []
    decreases |records|
  {
    if records != [] {
      LoadedNonEmpty(records[..|records| - 1]);
    }
  }
}
