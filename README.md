# KPI ingestion core of kpis-brainjuice, in Dafny

This project models the ingestion core of `assets/kip-core.js`, the module
shared by the KPI dashboard pages. The dashboard reads a CSV of weekly
business KPIs written in Brazilian conventions. The core turns that CSV into
typed rows keyed by week. The project states what that core promises and
proves it.

- **`PtNumber`** (`pt_number.dfy`) models `parsePtNumber`. It handles one
  cell as follows:
  - a missing cell, or one that is blank after `trim`, is `null`;
  - every character outside `[0-9,.-]` is stripped;
  - if both `,` and `.` are present, the points are dropped as thousands
    separators and the first comma becomes the decimal point;
  - if only `,` is present, the first comma becomes the decimal point;
  - what is left goes through `Number`, and a non-finite result is `null`.

  `Number` is modelled for the strings that can reach it. The empty string
  gives 0. An optional minus sign followed by digits, with at most one point
  and at least one digit, gives its exact value. Anything else gives `NaN`,
  shown as `None`.
- **`MetricDefs`** (`metric_defs.dfy`) and **`MetricCatalog`**
  (`metric_catalog.dfy`) model `METRIC_GROUPS` and `findMetricLabel`.
  `METRIC_GROUPS` is the ordered catalog of 22 metrics in 6 groups, with
  their keys, labels and kinds as written in the source. `findMetricLabel`
  is a loop over the groups, each searched in order, with an early return.
  The source never checks that the keys are unique. The constant's keys
  are proved pairwise distinct, so every row has exactly 22 metric fields.
- **`KpiRows`** (`kpi_rows.dfy`) models the normalising body of `parseCsv`.
  For each tokenised record it does the following:
  - it works out the canonical date, or `null`;
  - it builds one field per catalog key in nested loops, each field being
    `parsePtNumber` of the record's cell;
  - it drops rows whose date is falsy;
  - it sorts the rest by `week_ending`.
- **`WeekListing`** (`week_listing.dfy`) models `listWeeksAsc`: the distinct
  weeks, in the order a `Set` first meets them, then sorted.
- **`ValueFormat`** (`value_format.dfy`) models the guard of `formatByKind`
  and its choice between the currency and the number formatter.
- **`Sorting`** and **`StringOrder`** hold the stable sort and the string
  order these rely on. `SeqFacts` and `Wrappers` are small shared utilities.

Three behaviours of `parsePtNumber` are easy to misread:

1. A cell made only of symbols or letters ("R$", "abc") parses as 0, not
   `null`: stripping leaves `""` and `Number("")` is 0
   (`PtNumber.NoNumericCharsIsZero`). A cell whose strip leaves a lone "-",
   such as "R$ -", is `null` (`PtNumber.ExampleNull`).
2. Only the first comma becomes a decimal point, so "1,2,3" becomes "1.2,3"
   and then `null` (`PtNumber.ExampleNull`, `PtNumber.ParsePtNumber`).
3. A point with no comma is a decimal point: "1.234" is 1.234, not 1234
   (`PtNumber.PeriodDecimal`).

## Model

| member | source | states |
|---|---|---|
| PtNumber.TrimStart | assets/kip-core.js:48 | what `trim` removes in front is ECMAScript whitespace; the result is a suffix of the input and does not start with whitespace |
| PtNumber.TrimEnd | assets/kip-core.js:48 | what `trim` removes at the back is ECMAScript whitespace; the result is a prefix of the input and does not end with whitespace |
| PtNumber.Trim | assets/kip-core.js:48 | `String(v).trim()`: `TrimStart` then `TrimEnd`; its contract is stated by `TrimEmptyIff`, `TrimNoWhitespace` and the two halves' rows |
| PtNumber.TrimEmptyIff | assets/kip-core.js:48-49 | a cell trims to the empty string exactly when every character of it is whitespace |
| PtNumber.KeepNumeric | assets/kip-core.js:51 | the stripped string holds only characters of `[0-9,.-]` and is no longer than the cell; what it keeps, and in which order, is fixed by `KeepNumericAppend` and `KeepNumericExtremes` |
| PtNumber.KeepNumericAppend | assets/kip-core.js:51 | stripping a concatenation strips each part and joins them, so the kept characters stay in their order |
| PtNumber.KeepNumericExtremes | assets/kip-core.js:51 | a string of numeric characters is kept whole, and one without any is deleted entirely; with `KeepNumericAppend` this fixes the strip on every input |
| PtNumber.KeepNumericCounts | assets/kip-core.js:51 | stripping keeps every digit, comma, point and minus sign: their counts are unchanged |
| PtNumber.NonNumericIgnored | assets/kip-core.js:48-51 | text without numeric characters around a non-blank cell (a currency symbol, letters, spaces) does not change its value |
| PtNumber.StripIgnoresTrim | assets/kip-core.js:48-51 | stripping after trimming gives the same string as stripping the untrimmed cell |
| PtNumber.RemoveAll | assets/kip-core.js:54 | `replace(/\./g, '')` leaves no point, keeps every other character that occurs and shortens the string by the number of points; the order is fixed by `RemoveAllAppend` and `RemoveAllAbsent` |
| PtNumber.RemoveAllAppend | assets/kip-core.js:54 | removing the points of a concatenation removes them from each part and joins the rest, so the other characters stay in their order |
| PtNumber.RemoveAllAbsent | assets/kip-core.js:54 | a string without a point is unchanged by removing the points; with `RemoveAllAppend` this fixes the removal on every input |
| PtNumber.RemoveAllOne | assets/kip-core.js:54 | removing the only point of `x + "." + y` gives `x + y` |
| PtNumber.RemoveAllCounts | assets/kip-core.js:54 | removing the points leaves the count of every other character unchanged |
| PtNumber.ReplaceFirst | assets/kip-core.js:54-56 | `replace(',', '.')` changes only the first comma into a point and leaves every other position unchanged; without a comma the string is unchanged |
| PtNumber.ReplaceFirstCounts | assets/kip-core.js:54-56 | replacing the first comma takes exactly one from the comma count and adds one to the point count |
| PtNumber.Normalise | assets/kip-core.js:53-57 | the separator step of `parsePtNumber`; what it does in each of its three branches is stated by `NormaliseSeparators` and `NormaliseCommaCount` |
| PtNumber.NormaliseSeparators | assets/kip-core.js:53-57 | the three separator cases: with both, one point is left at the first comma's place after the points are removed; with a comma only, only the first comma becomes a point; with no comma nothing changes |
| PtNumber.NormaliseCommaCount | assets/kip-core.js:53-57 | settling the separators consumes exactly one comma when there is one |
| PtNumber.ToNumber | assets/kip-core.js:58-59 | `Number` on the normalised string gives `NaN` (None) whenever a comma is left or a minus sign or point appears twice, and 0 for the empty string |
| PtNumber.DecimalLiteralValue | assets/kip-core.js:58 | an optional minus, digits, a point and digits, with at least one digit, is a valid literal worth sign × (integer digits + fraction digits) |
| PtNumber.ParsePtNumber | assets/kip-core.js:46-60 | a missing cell is `null`; a number only comes from a non-blank cell; a cell with two or more commas is `null` |
| PtNumber.BlankIsNull | assets/kip-core.js:47-49 | an empty or whitespace-only cell is `null` |
| PtNumber.NullIff | assets/kip-core.js:46-60 | `null` comes out exactly when the cell is missing or blank, or when the normalised string is neither empty nor a decimal literal |
| PtNumber.NoNumericCharsIsZero | assets/kip-core.js:51-58 | a non-blank cell with no numeric character at all parses as 0, because `Number("")` is 0 |
| PtNumber.CleanCell | assets/kip-core.js:46-58 | a cell made only of numeric characters skips trim and strip: its value is `Number` of its normalised form |
| PtNumber.IntegerLiteralValue | assets/kip-core.js:58 | `Number` of an optional minus and one or more digits, with no point, is sign × the digits' value |
| PtNumber.IntegerCell | assets/kip-core.js:46-58 | a whole-number cell, the form of every count metric ("45", "-3"), parses to sign × the digits' value |
| PtNumber.CommaDecimal | assets/kip-core.js:55-58 | a decimal comma alone: `sign + a + "," + b` parses to sign × value of `a.b` |
| PtNumber.GroupedDecimal | assets/kip-core.js:53-58 | thousands points with a decimal comma: the points are dropped and the value is that of the remaining digits with the comma as decimal point |
| PtNumber.PeriodDecimal | assets/kip-core.js:53-58 | a point with no comma is already the decimal point: `sign + a + "." + b` parses to sign × value of `a.b` |
| PtNumber.ExampleGrouped | assets/kip-core.js:46-60 | "1.234,56" parses to 1234.56 |
| PtNumber.ExampleCurrency | assets/kip-core.js:46-60 | "R$ 1.234,56" parses to 1234.56 |
| PtNumber.ExampleDecimalSeparators | assets/kip-core.js:46-60 | "12,5" and "12.5" both parse to 12.5 |
| PtNumber.ExampleNull | assets/kip-core.js:46-60 | "R$ -", "1,2,3", "" and " " all parse to `null` |
| MetricDefs.FirstWithKey | assets/kip-core.js:76 | `arr.find` on the key: absent exactly when no definition has the key, otherwise the first position holding it |
| MetricDefs.LabelOf | assets/kip-core.js:74-79 | the lookup's meaning: the key itself when no metric has it, otherwise the label of the first metric, in group order then list order, that has it |
| MetricDefs.FindLabelIn | assets/kip-core.js:74-79 | the loop over the groups with its early return computes exactly `LabelOf` |
| MetricDefs.FirstWithKeyAt | assets/kip-core.js:76 | a definition with the key that no earlier definition shares is the one `find` returns |
| MetricDefs.LabelOfFirstMatch | assets/kip-core.js:74-79 | the label returned is that of the first metric carrying the key |
| MetricDefs.FlattenAppend | assets/kip-core.js:75 | visiting groups one after the other visits their metrics in concatenated order |
| MetricCatalog.FindMetricLabel | assets/kip-core.js:74-79 | `findMetricLabel` over `METRIC_GROUPS` returns `LabelOf` the catalog |
| MetricCatalog.CatalogLookupExample | assets/kip-core.js:9 | in the catalog itself, "Financeiro_Lucro" is found and labelled "Lucro" |
| MetricCatalog.CatalogFlat | assets/kip-core.js:6-41 | the metrics of `METRIC_GROUPS` in visiting order are the six groups' lists joined in declaration order |
| MetricCatalog.CatalogKeysDistinct | assets/kip-core.js:6-41 | the 22 keys of `METRIC_GROUPS` are pairwise distinct, so `findMetricLabel` never has two candidates for a key |
| KpiRows.MetricValues | assets/kip-core.js:95-97 | the fields a row gets from its record, one per catalog key; that the loops build exactly this is stated by `BuildValues` |
| KpiRows.KeysOfDistinct | assets/kip-core.js:95-97 | metric lists with distinct keys give a row as many fields as there are metrics |
| KpiRows.CatalogFields | assets/kip-core.js:95-97 | every row built over `METRIC_GROUPS` has exactly 22 metric fields |
| KpiRows.WeekOf | assets/kip-core.js:93-94 | the row's `week_ending`: the canonical date of the record's `week_ending` cell, or `null` when the date is invalid or the column is missing; its use is stated by `Cleaned` |
| KpiRows.Kept | assets/kip-core.js:99 | the truthiness test of `filter(r => r.week_ending)`: `null` and `""` are dropped; counted by `NumKept` and listed by `KeptIndices` |
| KpiRows.NumKept | assets/kip-core.js:99 | the number of records the filter lets through is never more than the number of records |
| KpiRows.KeptIndices | assets/kip-core.js:92-99 | the positions of the records whose date is truthy: strictly increasing, each kept, every kept record listed, `NumKept` of them |
| KpiRows.BuildValues | assets/kip-core.js:95-97 | the nested loops give a row exactly one field per catalog key, each equal to `parsePtNumber` of the record's cell under that key (`undefined` when the column is absent) |
| KpiRows.Cleaned | assets/kip-core.js:92-99 | the map and filter keep exactly one row per record whose date is truthy (`NumKept`), so never more rows than records; every row has a non-empty date and every catalog key; every row comes from a record with that date; every record whose date parsed gives a row; `CleanedByIndex` fixes order and multiplicity |
| KpiRows.CleanedByIndex | assets/kip-core.js:92-99 | the map and filter give exactly the rows of the kept records, one per record and in record order: the `j`-th row is built from the `j`-th kept record |
| KpiRows.CleanedSnoc | assets/kip-core.js:92-99 | one more record adds its row at the end, exactly when its date is truthy |
| KpiRows.ParseRecords | assets/kip-core.js:92-102 | the loop over the records builds the cleaned rows, and the result is them sorted by week |
| KpiRows.SortedRowsFacts | assets/kip-core.js:92-102 | the sorted output is ordered by week and holds exactly one row per record with a truthy date; each row is dated, complete and built from one record; each dated record is present; rows of one week keep their record order |
| KpiRows.ParseCsv | assets/kip-core.js:88-103 | `parseCsv` after tokenising: all of `SortedRowsFacts` for the output over `METRIC_GROUPS`, and every row has exactly 22 metric fields |
| WeekListing.ListWeeksAsc | assets/kip-core.js:69-72 | `listWeeksAsc(rows)`: the distinct weeks, sorted; its contract is stated by `ListWeeksAscSpec` and `ListWeeksAscUnique` |
| WeekListing.Distinct | assets/kip-core.js:70-71 | `Array.from(new Set(...))` has no duplicates and holds exactly the input's values |
| WeekListing.ListWeeksAscSpec | assets/kip-core.js:69-72 | `listWeeksAsc` is strictly ascending, so no week appears twice, and holds exactly the rows' `week_ending` values |
| WeekListing.ListWeeksAscUnique | assets/kip-core.js:69-72 | any strictly ascending list of the rows' weeks equals the result, so the set's insertion order does not matter |
| WeekListing.ParsedWeeks | assets/kip-core.js:69-72 | the weeks listed for the output of `parseCsv` are exactly the non-empty canonical dates of its records |
| Sorting.SortBy | assets/kip-core.js:101 | the sort's result is ordered by key and is a permutation of its input |
| Sorting.SortByStable | assets/kip-core.js:101 | the sort is stable: the elements sharing a key keep their input order |
| StringOrder.Less | assets/kip-core.js:71 | `localeCompare` on the dates, as code-point order; it is a strict total order by `LessIrreflexive`, `LessTransitive` and `LessTotal` |
| StringOrder.LessTotal | assets/kip-core.js:71 | two different strings are ordered one way or the other |
| StringOrder.LessTransitive | assets/kip-core.js:71 | the string order is transitive |
| StringOrder.StrictlyAscendingUnique | assets/kip-core.js:71 | two strictly ascending lists with the same elements are equal |
| ValueFormat.FormatByKind | assets/kip-core.js:62-65 | `null`, `undefined` and `''` are displayed as `""`; any other value goes to the currency formatter when `kind` is "currency", and to the number formatter otherwise |
| ValueFormat.FormatParsed | assets/kip-core.js:62-65 | a cell `parsePtNumber` left `null` is displayed as `""` whatever the kind; a parsed number, zero included, goes to the formatter of the metric's kind |

## Left out

- `loadCsv` (fetch and HTTP status) is left out: it is network I/O.
- `Papa.parse` is not modelled. `parseCsv` is modelled from its tokenised
  records on, each a map from column name to cell text. The shallow copy of
  each record is not modelled either, because it changes no values.
- `new Date(...)`, `isNaN` and `ymd` are not modelled. They are the
  `parseDate` parameter of `KpiRows`, which returns the canonical date or
  `None` for an invalid date.
- `Intl.NumberFormat` (`brNumber`, `brCurrency`) is not modelled. It is the
  `currency` and `number` parameters of `ValueFormat.FormatByKind`, so the
  formatted text itself is not modelled.
- PtNumber.ToNumber: does not model IEEE-754 doubles. Values are exact
  reals, so a digit string too long for a double gives its exact value
  where `Number` would round it or give `Infinity`, which becomes `null`.
  For the same reason -0 is 0.
- PtNumber.ParsePtNumber: takes the cell as text. Non-string inputs, which
  the source converts with `String(v)`, are left out: the tokeniser
  produces only strings and `undefined`.
- StringOrder.Less: models `localeCompare` as code-point order.
  The two agree on the zero-padded ISO dates that reach it. Locale
  collation in general is not modelled.
- Sorting.SortBy: the in-place `Array.prototype.sort` is modelled on
  values, as a stable insertion sort. Update in place and aliasing of the
  array are not modelled.
- ValueFormat.FormatByKind: models the value as a JavaScript value that is
  `null`, `undefined`, a string or a number. Other JavaScript values
  (objects, booleans) are left out.
