/** The normalising body of `parseCsv`: every tokenised CSV record becomes a
    row holding a canonical week-ending date and one parsed value per
    catalog metric; rows whose date did not parse are dropped, and the rest
    are sorted by date. */
module KpiRows {
  import opened Wrappers
  import opened SeqFacts
  import opened Sorting
  import opened PtNumber
  import opened MetricDefs
  import opened MetricCatalog

  /** One record as the CSV tokeniser produces it with a header line: column
      name to cell text. A column the line lacks is absent from the map. */
  type RawRecord = map<string, string>

  /** One normalised row: its canonical week-ending date and, for every
      catalog key, the parsed number or `None` for `null`. */
  datatype Row = Row(weekEnding: string, values: map<string, Option<real>>)

  /** `r[k]`: the cell, or `None` for `undefined`. */
  function Field(rec: RawRecord, k: string): Option<string> {
    if k in rec then Some(rec[k]) else None
  }

  /** The keys of a list of metric definitions. */
  function KeysOf(defs: seq<MetricDef>): set<string> {
    set d | d in defs :: d.key
  }

  /** The metric fields of the row built from `rec`: each key of `defs`
      mapped to `parsePtNumber` of the record's cell under that key. */
  function MetricValues(defs: seq<MetricDef>, rec: RawRecord): map<string, Option<real>> {
    map k | k in KeysOf(defs) :: ParsePtNumber(Field(rec, k))
  }

  /** The `week_ending` of the row built from `rec`. `parseDate` stands for
      the host's `new Date(...)` followed by `ymd`, returning `None` for an
      invalid date; a record without the column gives `new Date(undefined)`,
      which is invalid. */
  function WeekOf(rec: RawRecord, parseDate: string -> Option<string>): Option<string> {
    if "week_ending" in rec then parseDate(rec["week_ending"]) else None
  }

  /** The test of `filter(r => r.week_ending)`: `null` and the empty string
      are falsy. */
  predicate Kept(week: Option<string>) {
    week.Some? && week.value != ""
  }

  /** The sort key of `cleaned.sort`. */
  function WeekKey(r: Row): string {
    r.weekEnding
  }

  /** How many of `records` have a truthy date: the number of rows the
      filter lets through. */
  function NumKept(records: seq<RawRecord>, parseDate: string -> Option<string>): (n: nat)
    ensures n <= |records|
  {
    if records == [] then 0
    else
      NumKept(records[..|records| - 1], parseDate) +
        (if Kept(WeekOf(records[|records| - 1], parseDate)) then 1 else 0)
  }

  /** `rows.map(...).filter(...)`: the rows, in record order, of the records
      whose date parsed. */
  function Cleaned(groups: seq<MetricGroup>, records: seq<RawRecord>,
                   parseDate: string -> Option<string>): (rows: seq<Row>)
    ensures |rows| <= |records|
    ensures |rows| == NumKept(records, parseDate)
    ensures forall r :: r in rows ==>
      r.weekEnding != "" && r.values.Keys == KeysOf(Flatten(groups))
    ensures forall r :: r in rows ==>
      exists rec :: rec in records && WeekOf(rec, parseDate) == Some(r.weekEnding) &&
                    r.values == MetricValues(Flatten(groups), rec)
    ensures forall rec :: rec in records && Kept(WeekOf(rec, parseDate)) ==>
      Row(WeekOf(rec, parseDate).value, MetricValues(Flatten(groups), rec)) in rows
  {
    if records == [] then []
    else
      var init, rec := records[..|records| - 1], records[|records| - 1];
      assert records == init + [rec];
      var week := WeekOf(rec, parseDate);
      Cleaned(groups, init, parseDate) +
        (if Kept(week) then [Row(week.value, MetricValues(Flatten(groups), rec))] else [])
  }

  /** The row `parseCsv` builds from a record whose date is truthy. */
  function RowOf(groups: seq<MetricGroup>, rec: RawRecord,
                 parseDate: string -> Option<string>): Row
    requires Kept(WeekOf(rec, parseDate))
  {
    Row(WeekOf(rec, parseDate).value, MetricValues(Flatten(groups), rec))
  }

  /** The positions of the records whose date is truthy, in increasing
      order: the records `filter` lets through. */
  function KeptIndices(records: seq<RawRecord>, parseDate: string -> Option<string>): (idx: seq<nat>)
    ensures |idx| == NumKept(records, parseDate)
    ensures forall j :: 0 <= j < |idx| ==>
      idx[j] < |records| && Kept(WeekOf(records[idx[j]], parseDate))
    ensures forall j, k :: 0 <= j < k < |idx| ==> idx[j] < idx[k]
    ensures forall i :: 0 <= i < |records| && Kept(WeekOf(records[i], parseDate)) ==> i in idx
  {
    if records == [] then []
    else
      var n := |records| - 1;
      var init := records[..n];
      assert forall i :: 0 <= i < n ==> init[i] == records[i];
      KeptIndices(init, parseDate) + (if Kept(WeekOf(records[n], parseDate)) then [n] else [])
  }

  /** `Cleaned` is exactly the rows of the kept records, one per record, in
      record order: its `j`-th row is built from the `j`-th kept record. */
  lemma {:induction false} CleanedByIndex(groups: seq<MetricGroup>, records: seq<RawRecord>,
                                          parseDate: string -> Option<string>)
    ensures var rows, idx := Cleaned(groups, records, parseDate), KeptIndices(records, parseDate);
      |rows| == |idx| &&
      forall j :: 0 <= j < |idx| ==> rows[j] == RowOf(groups, records[idx[j]], parseDate)
    decreases |records|
  {
    if records != [] {
      var n := |records| - 1;
      var init := records[..n];
      CleanedByIndex(groups, init, parseDate);
      var rows0, idx0 := Cleaned(groups, init, parseDate), KeptIndices(init, parseDate);
      var rows, idx := Cleaned(groups, records, parseDate), KeptIndices(records, parseDate);
      var kept := Kept(WeekOf(records[n], parseDate));
      assert rows == rows0 + (if kept then [RowOf(groups, records[n], parseDate)] else []);
      assert idx == idx0 + (if kept then [n] else []);
      assert |rows0| == |idx0|;
      forall j | 0 <= j < |idx| ensures rows[j] == RowOf(groups, records[idx[j]], parseDate) {
        if j < |idx0| {
          assert rows[j] == rows0[j] && idx[j] == idx0[j];
          assert rows0[j] == RowOf(groups, init[idx0[j]], parseDate);
          assert init[idx0[j]] == records[idx0[j]];
        } else {
          assert kept && idx[j] == n;
          assert rows[j] == RowOf(groups, records[n], parseDate);
        }
      }
    }
  }

  /** Adding one definition adds its key. */
  lemma KeysOfSnoc(defs: seq<MetricDef>, d: MetricDef)
    ensures KeysOf(defs + [d]) == KeysOf(defs) + {d.key}
  {
    forall k | k in KeysOf(defs + [d]) ensures k in KeysOf(defs) + {d.key} {
      var e :| e in defs + [d] && e.key == k;
      if e != d {
        assert e in defs;
      }
    }
    forall k | k in KeysOf(defs) + {d.key} ensures k in KeysOf(defs + [d]) {
      if k == d.key {
        assert d in defs + [d];
      } else {
        var e :| e in defs && e.key == k;
        assert e in defs + [d];
      }
    }
  }

  /** Definitions with distinct keys have as many keys as definitions. */
  lemma {:induction false} KeysOfDistinct(defs: seq<MetricDef>)
    requires KeysDistinct(defs)
    ensures |KeysOf(defs)| == |defs|
    decreases |defs|
  {
    if defs != [] {
      var n := |defs| - 1;
      var init := defs[..n];
      assert defs == init + [defs[n]];
      assert KeysDistinct(init) by {
        forall i, j | 0 <= i < j < |init| ensures init[i].key != init[j].key {
          assert init[i] == defs[i] && init[j] == defs[j];
        }
      }
      KeysOfDistinct(init);
      KeysOfSnoc(init, defs[n]);
      assert defs[n].key !in KeysOf(init) by {
        forall e | e in init ensures e.key != defs[n].key {
          var i :| 0 <= i < |init| && init[i] == e;
          assert defs[i] == e;
        }
      }
    }
  }

  /** A row over `METRIC_GROUPS` has exactly 22 metric fields. */
  lemma CatalogFields()
    ensures |KeysOf(Flatten(Catalog))| == 22
  {
    CatalogKeysDistinct();
    KeysOfDistinct(Flatten(Catalog));
  }

  /** Adding one definition adds its key, mapped to its parsed cell. */
  lemma MetricValuesSnoc(defs: seq<MetricDef>, d: MetricDef, rec: RawRecord)
    ensures MetricValues(defs + [d], rec) ==
            MetricValues(defs, rec)[d.key := ParsePtNumber(Field(rec, d.key))]
  {
    KeysOfSnoc(defs, d);
  }

  /** The nested loops of `parseCsv` over `METRIC_GROUPS`: one field per
      metric key, assigned group by group. */
  method BuildValues(groups: seq<MetricGroup>, rec: RawRecord)
    returns (values: map<string, Option<real>>)
    ensures values == MetricValues(Flatten(groups), rec)
    ensures values.Keys == KeysOf(Flatten(groups))
    ensures forall k :: k in values ==> values[k] == ParsePtNumber(Field(rec, k))
  {
    values := map[];
    var g := 0;
    while g < |groups|
      invariant 0 <= g <= |groups|
      invariant values == MetricValues(Flatten(groups[..g]), rec)
    {
      var done := Flatten(groups[..g]);
      var metrics := groups[g].metrics;
      var m := 0;
      assert done + metrics[..0] == done;
      while m < |metrics|
        invariant 0 <= m <= |metrics|
        invariant values == MetricValues(done + metrics[..m], rec)
      {
        MetricValuesSnoc(done + metrics[..m], metrics[m], rec);
        PrefixSnoc(done, metrics, m);
        values := values[metrics[m].key := ParsePtNumber(Field(rec, metrics[m].key))];
        m := m + 1;
      }
      assert metrics[..m] == metrics;
      FlattenStep(groups, g);
      g := g + 1;
    }
    assert groups[..g] == groups;
  }

  /** One more record extends the cleaned rows by its row, if it is kept. */
  lemma CleanedSnoc(groups: seq<MetricGroup>, records: seq<RawRecord>, i: nat,
                    parseDate: string -> Option<string>)
    requires i < |records|
    ensures Cleaned(groups, records[..i + 1], parseDate) ==
            Cleaned(groups, records[..i], parseDate) +
            (if Kept(WeekOf(records[i], parseDate))
             then [Row(WeekOf(records[i], parseDate).value, MetricValues(Flatten(groups), records[i]))]
             else [])
  {
    assert records[..i + 1][..i] == records[..i];
  }

  /** What sorting the cleaned rows keeps: sorted by week, no more rows than
      records and exactly one per dated record, every row dated and
      complete and built from one of the
      records, every dated record present, rows of one week in record order. */
  lemma SortedRowsFacts(groups: seq<MetricGroup>, records: seq<RawRecord>,
                        parseDate: string -> Option<string>)
    ensures var rows := SortBy(Cleaned(groups, records, parseDate), WeekKey);
      && SortedBy(rows, WeekKey)
      && |rows| <= |records|
      && |rows| == NumKept(records, parseDate)
      && (forall r :: r in rows ==>
            r.weekEnding != "" && r.values.Keys == KeysOf(Flatten(groups)))
      && (forall r :: r in rows ==>
            exists rec :: rec in records && WeekOf(rec, parseDate) == Some(r.weekEnding) &&
                          r.values == MetricValues(Flatten(groups), rec))
      && (forall rec :: rec in records && Kept(WeekOf(rec, parseDate)) ==>
            Row(WeekOf(rec, parseDate).value, MetricValues(Flatten(groups), rec)) in rows)
      && (forall k :: WithKey(rows, WeekKey, k) ==
                      WithKey(Cleaned(groups, records, parseDate), WeekKey, k))
  {
    var cleaned := Cleaned(groups, records, parseDate);
    var rows := SortBy(cleaned, WeekKey);
    forall r | r in rows ensures r in cleaned {
      assert r in multiset(rows);
    }
    forall rec | rec in records && Kept(WeekOf(rec, parseDate))
      ensures Row(WeekOf(rec, parseDate).value, MetricValues(Flatten(groups), rec)) in rows
    {
      assert Row(WeekOf(rec, parseDate).value, MetricValues(Flatten(groups), rec)) in multiset(cleaned);
    }
    forall k ensures WithKey(rows, WeekKey, k) == WithKey(cleaned, WeekKey, k) {
      SortByStable(cleaned, WeekKey, k);
    }
  }

  /** `parseCsv` after tokenising, over the groups `groups`: each record is
      normalised, rows without a date are dropped, and the rest are sorted
      by `week_ending`, rows of the same week keeping their record order. */
  method ParseRecords(groups: seq<MetricGroup>, records: seq<RawRecord>,
                      parseDate: string -> Option<string>) returns (rows: seq<Row>)
    ensures rows == SortBy(Cleaned(groups, records, parseDate), WeekKey)
    ensures multiset(rows) == multiset(Cleaned(groups, records, parseDate))
  {
    var cleaned: seq<Row> := [];
    var i := 0;
    while i < |records|
      invariant 0 <= i <= |records|
      invariant cleaned == Cleaned(groups, records[..i], parseDate)
    {
      var rec := records[i];
      var week := WeekOf(rec, parseDate);
      var values := BuildValues(groups, rec);
      CleanedSnoc(groups, records, i, parseDate);
      if week.Some? && week.value != "" {
        cleaned := cleaned + [Row(week.value, values)];
      }
      i := i + 1;
    }
    assert records[..i] == records;
    rows := SortBy(cleaned, WeekKey);
  }

  /** `parseCsv` after tokenising, over `METRIC_GROUPS`. */
  method ParseCsv(records: seq<RawRecord>, parseDate: string -> Option<string>)
    returns (rows: seq<Row>)
    ensures rows == SortBy(Cleaned(Catalog, records, parseDate), WeekKey)
    ensures SortedBy(rows, WeekKey)
    ensures |rows| <= |records|
    ensures |rows| == NumKept(records, parseDate)
    ensures forall r :: r in rows ==>
      r.weekEnding != "" && r.values.Keys == KeysOf(Flatten(Catalog))
    ensures forall r :: r in rows ==> |r.values| == 22
    ensures forall r :: r in rows ==>
      exists rec :: rec in records && WeekOf(rec, parseDate) == Some(r.weekEnding) &&
                    r.values == MetricValues(Flatten(Catalog), rec)
    ensures forall rec :: rec in records && Kept(WeekOf(rec, parseDate)) ==>
      Row(WeekOf(rec, parseDate).value, MetricValues(Flatten(Catalog), rec)) in rows
    ensures forall k :: WithKey(rows, WeekKey, k) ==
                        WithKey(Cleaned(Catalog, records, parseDate), WeekKey, k)
  {
    rows := ParseRecords(Catalog, records, parseDate);
    SortedRowsFacts(Catalog, records, parseDate);
    CatalogFields();
  }
}
