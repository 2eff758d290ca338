/** `listWeeksAsc`: the distinct `week_ending` values of a list of rows,
    ascending. */
module WeekListing {
  import opened StringOrder
  import opened Sorting
  import opened Wrappers
  import opened MetricDefs
  import opened KpiRows

  predicate NoDuplicates(s: seq<string>) {
    forall i, j :: 0 <= i < j < |s| ==> s[i] != s[j]
  }

  /** `rows.map(r => r.week_ending)`. */
  function Weeks(rows: seq<Row>): (ws: seq<string>)
    ensures |ws| == |rows|
    ensures forall i :: 0 <= i < |rows| ==> ws[i] == rows[i].weekEnding
  {
    seq(|rows|, i requires 0 <= i < |rows| => rows[i].weekEnding)
  }

  /** `Array.from(new Set(s))`: the elements of `s` in the order of their
      first occurrence. */
  function Distinct(s: seq<string>): (d: seq<string>)
    ensures NoDuplicates(d)
    ensures forall x :: x in d <==> x in s
    ensures |d| <= |s|
  {
    if s == [] then []
    else
      var init, last := s[..|s| - 1], s[|s| - 1];
      assert s == init + [last];
      var d := Distinct(init);
      if last in d then d else d + [last]
  }

  /** The comparator of the sort: `localeCompare` on the strings themselves. */
  function Identity(w: string): string {
    w
  }

  /** `listWeeksAsc(rows)`. */
  function ListWeeksAsc(rows: seq<Row>): seq<string> {
    SortBy(Distinct(Weeks(rows)), Identity)
  }

  lemma {:induction false} NoDuplicatesCount(s: seq<string>, x: string)
    requires NoDuplicates(s)
    ensures multiset(s)[x] <= 1
    decreases |s|
  {
    if s != [] {
      var init, last := s[..|s| - 1], s[|s| - 1];
      assert s == init + [last];
      assert NoDuplicates(init) by {
        forall i, j | 0 <= i < j < |init| ensures init[i] != init[j] {
          assert init[i] == s[i] && init[j] == s[j];
        }
      }
      NoDuplicatesCount(init, x);
    }
  }

  lemma RepeatedCount(s: seq<string>, i: nat, j: nat)
    requires i < j < |s| && s[i] == s[j]
    ensures multiset(s)[s[i]] >= 2
  {
    assert s == s[..j] + [s[j]] + s[j + 1..];
    assert s[..j][i] == s[i];
  }

  /** A permutation of a sequence without duplicates has none either. */
  lemma PermutationNoDuplicates(a: seq<string>, b: seq<string>)
    requires multiset(a) == multiset(b) && NoDuplicates(b)
    ensures NoDuplicates(a)
  {
    forall i, j | 0 <= i < j < |a| ensures a[i] != a[j] {
      if a[i] == a[j] {
        RepeatedCount(a, i, j);
        NoDuplicatesCount(b, a[i]);
      }
    }
  }

  /** Sorted without duplicates is strictly ascending. */
  lemma SortedDistinctAscending(s: seq<string>)
    requires SortedBy(s, Identity) && NoDuplicates(s)
    ensures StrictlyAscending(s)
  {
    forall i, j | 0 <= i < j < |s| ensures Less(s[i], s[j]) {
      assert !Less(Identity(s[j]), Identity(s[i]));
      LessTotal(s[i], s[j]);
    }
  }

  /** What `listWeeksAsc` promises: strictly ascending, so no week twice,
      and holding exactly the `week_ending` values of the rows. */
  lemma ListWeeksAscSpec(rows: seq<Row>)
    ensures StrictlyAscending(ListWeeksAsc(rows))
    ensures forall w :: w in ListWeeksAsc(rows) <==> exists r :: r in rows && r.weekEnding == w
  {
    var d := Distinct(Weeks(rows));
    var ws := ListWeeksAsc(rows);
    PermutationNoDuplicates(ws, d);
    SortedDistinctAscending(ws);
    forall w ensures w in ws <==> exists r :: r in rows && r.weekEnding == w {
      assert w in ws <==> w in multiset(d);
      if w in Weeks(rows) {
        var i :| 0 <= i < |rows| && Weeks(rows)[i] == w;
        assert rows[i] in rows;
      }
      if exists r :: r in rows && r.weekEnding == w {
        var r :| r in rows && r.weekEnding == w;
        var i :| 0 <= i < |rows| && rows[i] == r;
        assert Weeks(rows)[i] == w;
      }
    }
  }

  /** The result is the only strictly ascending list of the rows' weeks, so
      the order in which the set first met them does not matter. */
  lemma ListWeeksAscUnique(rows: seq<Row>, ws: seq<string>)
    requires StrictlyAscending(ws)
    requires forall w :: w in ws <==> exists r :: r in rows && r.weekEnding == w
    ensures ws == ListWeeksAsc(rows)
  {
    ListWeeksAscSpec(rows);
    StrictlyAscendingUnique(ws, ListWeeksAsc(rows));
  }

  /** The weeks listed for the output of `parseCsv` are exactly the
      non-empty canonical dates of its records. */
  lemma ParsedWeeks(groups: seq<MetricGroup>, records: seq<RawRecord>,
                    parseDate: string -> Option<string>, w: string)
    ensures w in ListWeeksAsc(SortBy(Cleaned(groups, records, parseDate), WeekKey)) <==>
            exists rec :: rec in records && WeekOf(rec, parseDate) == Some(w) && w != ""
  {
    var cleaned := Cleaned(groups, records, parseDate);
    var rows := SortBy(cleaned, WeekKey);
    ListWeeksAscSpec(rows);
    if exists r :: r in rows && r.weekEnding == w {
      var r :| r in rows && r.weekEnding == w;
      assert r in multiset(cleaned);
    }
    if exists rec :: rec in records && WeekOf(rec, parseDate) == Some(w) && w != "" {
      var rec :| rec in records && WeekOf(rec, parseDate) == Some(w) && w != "";
      var r := Row(w, MetricValues(Flatten(groups), rec));
      assert r in cleaned;
      assert r in multiset(rows);
    }
  }
}
