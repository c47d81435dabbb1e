# LFCstats statistics table, modelled in Dafny

The statistics page of LFCstats loads a CSV file of per-team match
statistics and turns it into a table. Its script is `docs/tables.js`. The
table gets a synthetic "League Average" row. A toggle switches every team
row to its difference from that average. A text box filters the teams by
name.

This project models the data pipeline of that script:

- `toNumberOrNull`, `mean` and `convToNum`;
- the league-average row (`computeLeagueAvg`) and the delta rows (`withDeltas`);
- the record mapping and team filter after CSV parsing in `loadCsv`;
- the two cell formatters (`fmtDelta` and the Conv% formatter);
- the team filter of the filter box;
- the page state that `renderTable`, the toggle handler and the loader share.

Modules:

- `Options`: the `Option` type. `None` stands for JavaScript's `null` and `undefined`.
- `JsString`: the string built-ins the script calls. `trim` uses the ECMAScript
  white-space set. `toLowerCase`, `includes` and `replace` are there too;
  `replace` with a string pattern removes only the first occurrence.
- `JsNumber`: `Number(string)` over a decimal grammar, and `Number.prototype.toFixed`.
  Numbers are `real`. For |x| < 10^21 and d <= 100, `toFixed` is modelled
  exactly: the magnitude is rounded half up to `d` decimals, written with a
  digit before the point and exactly `d` decimals, and prefixed by `-` for a
  negative number.
- `Tables`: the pure pipeline functions of `docs/tables.js`, with the
  properties proved about them.
- `TablesPage`: the module-level state (`baseRows`, `leagueAvg`) and the
  table widget's data and filter, as a class. Its methods are the load,
  `renderTable` and the two event handlers.

A row is the `Row` datatype. Its seven statistics (`goals`, `xg`,
`goals_vs_xg`, `shots`, `sot`, `xg_per_shot`, `SOT_per_shot`) form a
`Stats` record. `Stat` names one of them, and `Stat.Key` gives its CSV
header. The tags `_isAvg`, `_isDelta` and `_sortKey` are the fields
`isAvg`, `isDelta` and `sortKey`. A parsed CSV record is a
`map<string, string>`, and a header the record lacks reads as `undefined`.

Three remarks on the script's behaviour:

- The filter matches a team when its lower-cased name contains the query
  anywhere. So "Chelsea" matches the query "a" (`Tables.ChelseaMatches`).
- The initial sort is `_sortKey` descending, so the average row (key 0)
  sorts after the teams (key 1). The sort itself is the widget's and is left out.
- The toggle handler re-renders nothing before the load or when no team was
  loaded. Before the load the table holds nothing. After a load with no
  teams both views are the average row alone (`TablesPage.ViewRowsNoTeams`).
  So once loaded, the data the table holds is always the view for the
  current toggle state.

## Model

| member | source | states |
|---|---|---|
| JsString.TrimIsSlice | docs/tables.js:12 | `trim` returns a slice of its input with only white space cut off on either side |
| JsString.Trim | docs/tables.js:12 | what `trim` returns is no longer than its input and neither starts nor ends with white space |
| JsString.TrimIdempotent | docs/tables.js:174 | trimming text that was already trimmed changes nothing |
| JsString.TrimKeeps | docs/tables.js:12 | `trim` keeps every character that is not white space |
| JsString.ToLower | docs/tables.js:197 | `toLowerCase` keeps the length and lower-cases each character |
| JsString.LowerTwice | docs/tables.js:188 | lower-casing twice is lower-casing once |
| JsString.Contains | docs/tables.js:198 | `includes` holds only for a query no longer than the text, and always for the empty query |
| JsString.RemoveFirst | docs/tables.js:14 | `replace("%", "")` returns the text unchanged when it has no `%`, and otherwise deletes the first `%` and keeps every other character in place |
| JsString.IndexOf | docs/tables.js:14 | the first position of the character, or the length when it is absent |
| JsString.RemoveFirstOfSuffix | docs/tables.js:14 | `replace("%", "")` removes a single trailing `%` |
| JsString.RemoveFirstKeepsSecond | docs/tables.js:14 | when `%` occurs twice, the second one survives `replace` |
| JsNumber.ToFixed | docs/tables.js:38 | `toFixed(d)` writes `-` exactly for a negative number, then a digit before the point and exactly `d` decimals |
| JsNumber.ToFixedChars | docs/tables.js:61 | `toFixed` output holds no white space, no `%` and no `+` |
| JsNumber.ToFixedRoundTrip | docs/tables.js:61 | `Number(x.toFixed(d))` is `x` rounded to `d` decimals |
| JsNumber.PlusToFixedRoundTrip | docs/tables.js:86 | a `+` in front of a non-negative `toFixed` output reads back as the same rounded value |
| JsNumber.RoundedClose | docs/tables.js:38 | `toFixed(d)` is within half a unit in the last place of `x` |
| JsNumber.WithPointValue | docs/tables.js:14 | a digit string with a point before its last `d` digits reads as its value divided by 10^d |
| JsNumber.FixedDigitsValue | docs/tables.js:14 | the digits `toFixed` writes for `n / 10^d` read back as `n / 10^d` |
| JsNumber.NumberOfRejects | docs/tables.js:14-15 | `Number(s)` is not a number when `s` holds a character outside the grammar |
| JsNumber.NumberOf | docs/tables.js:14 | `Number` of empty or white-space text is 0 |
| Tables.ToNumberOrNull | docs/tables.js:10-16 | null for null/undefined, null for blank text, otherwise `Number` of the trimmed text with its first `%` removed, null when that is not a finite number |
| Tables.ConvToNum | docs/tables.js:24-26 | `convToNum` of blank text is null; of other text it is `Number` of the trimmed text with its first `%` removed |
| Tables.PercentReadsBack | docs/tables.js:24-26 | a number written without white space and followed by one `%` converts to that number |
| Tables.PercentTextIsNumber | docs/tables.js:25 | `convToNum("13.16%")` is 13.16 |
| Tables.TwoPercentsRejected | docs/tables.js:14 | only the first `%` is removed, so text with two `%` converts to null |
| Tables.DoublePercentIsNull | docs/tables.js:14 | `convToNum("1%%")` is null |
| Tables.LonePercentIsZero | docs/tables.js:13-14 | `"%"` is not blank, so it becomes `Number("")`, which is 0 |
| Tables.Present | docs/tables.js:19 | the number filter of `mean` never keeps more values than it is given |
| Tables.PresentEmpty | docs/tables.js:19-20 | no value is kept by `mean`'s filter exactly when every entry is null |
| Tables.PresentAll | docs/tables.js:19 | when every entry is a number, the filter keeps all of them |
| Tables.PresentFrom | docs/tables.js:19 | every value the filter keeps is one of the inputs |
| Tables.PresentAppend | docs/tables.js:19 | the filter of a concatenation is the concatenation of the filters |
| Tables.Mean | docs/tables.js:18-22 | `mean` is null exactly when every entry is null |
| Tables.MeanIgnoresNull | docs/tables.js:19 | inserting a null anywhere leaves the mean unchanged |
| Tables.MeanBounds | docs/tables.js:21 | the mean lies within any bounds of the present values, in particular between their minimum and maximum |
| Tables.SumBounds | docs/tables.js:21 | `Sum`, the reduce at line 21: the sum of `n` values within `[lo, hi]` lies within `[n*lo, n*hi]` |
| Tables.Column | docs/tables.js:54 | `rows.map(r => r.f)`: same length, and entry `i` is row `i`'s statistic |
| Tables.ConvColumn | docs/tables.js:60 | `rows.map(r => convToNum(r.conv))`: same length, and entry `i` is row `i`'s parsed percentage |
| Tables.AvgConv | docs/tables.js:59-62 | the average's `conv` is empty exactly when no row's `conv` parses, and otherwise ends in `%`; AvgConvIsFixed gives the text exactly |
| Tables.ComputeLeagueAvg | docs/tables.js:50-68 | team "League Average", `played` null, `_isAvg` true, `_sortKey` 0, not a delta row, each statistic the mean of that statistic over the rows, `conv` as in `AvgConv` |
| Tables.AvgStatBounds | docs/tables.js:54-64 | each statistic of the average is null exactly when no row has it, and otherwise lies within any bounds of that statistic over the rows |
| Tables.EmptyAverage | docs/tables.js:50-68 | with no rows every statistic of the average is null and its `conv` is empty |
| Tables.AvgConvIsFixed | docs/tables.js:60-61 | a non-empty average `conv` is the mean percentage written by `toFixed(2)` (a digit before the point and exactly 2 decimals), then `%` |
| Tables.AvgConvReadsBack | docs/tables.js:59-62 | the average's `conv` converts back to the mean percentage rounded to 2 decimals |
| Tables.SignedPercent | docs/tables.js:86 | the delta `conv` text has at least two characters and ends in `%`; SignedFixedFacts gives the sign and the exactly-2-decimal magnitude before it |
| Tables.DeltaConv | docs/tables.js:81-87 | a delta row's `conv` is empty exactly when the row's or the average's `conv` does not parse; DeltaConvIsSigned gives the text otherwise |
| Tables.DeltaConvIsSigned | docs/tables.js:82-86 | when both percentages parse, a delta row's `conv` is the signed difference `rc - ac` as `SignedPercent` writes it, whose sign rule and value SignedPercentReadsBack states |
| Tables.SignedPercentReadsBack | docs/tables.js:85-86 | the delta `conv` starts with `+` exactly when the difference is >= 0 and with `-` exactly when it is negative, and it converts back to the difference rounded to 2 decimals |
| Tables.SignedFixedFacts | docs/tables.js:86 | the signed difference before `%` has no white space and no `%`, starts with `+` exactly for a difference >= 0 and `-` exactly for a negative one, continues with a digit before the point and exactly 2 decimals, and reads back as the rounded difference |
| Tables.Diff | docs/tables.js:76 | adding the average's value (null as 0) back to `(r.f ?? 0) - (avg.f ?? 0)` gives the row's value (null as 0) |
| Tables.DeltaStats | docs/tables.js:76-80 | each delta statistic is present and equals `(r.f ?? 0) - (avg.f ?? 0)` |
| Tables.DeltaRow | docs/tables.js:74-91 | a delta row has `_isDelta` set, keeps `team`, `played`, `_sortKey` and `_isAvg` from the spread, and has the delta statistics and delta `conv` |
| Tables.WithDeltas | docs/tables.js:70-93 | same length and order: average rows are returned unchanged, and every other row becomes its delta row |
| Tables.DeltaRestores | docs/tables.js:76 | adding the average's value (null as 0) back to a delta statistic gives the row's own value (null as 0) |
| Tables.DeltaColumn | docs/tables.js:76-89 | over non-average rows, a statistic's column of deltas is the column moved down by the average (null as 0) |
| Tables.Offset | docs/tables.js:76 | a column moved down by the average: every entry present, and adding the average (null as 0) back gives the original entry (null as 0) |
| Tables.SumSubtract | docs/tables.js:21 | moving every value down by `b` lowers the sum by `n` copies of `b` |
| Tables.OffsetSum | docs/tables.js:76 | over a column of numbers, the sum of the deltas is the sum of the values minus `n` copies of the average |
| Tables.FullMeanTimes | docs/tables.js:21 | over a column with no nulls, `n` copies of the mean add up to the column's sum |
| Tables.DeltasSumToZero | docs/tables.js:50-93 | when every team has a statistic, the deltas from the teams' own average sum to zero |
| Tables.FmtDelta | docs/tables.js:28-46 | `fmtDelta` returns the empty text exactly for a null value |
| Tables.FmtDeltaOfNumber | docs/tables.js:32-45 | for a number: `+` exactly on a delta row with the sign forced and a strictly positive number (never for zero), `-` exactly for a negative number, `deltaDecimals` decimals on a delta row and `normalDecimals` otherwise, and the text reads back as the number rounded to that many decimals |
| Tables.ConvCell | docs/tables.js:173-177 | the Conv% cell is empty exactly when the trimmed text is blank, and otherwise always holds a `%` |
| Tables.ConvCellPercentText | docs/tables.js:176 | text that holds a `%` is shown as the trimmed text, which converts to the same number |
| Tables.ConvCellNumberText | docs/tables.js:176 | a bare number is shown as its `toFixed(2)` text followed by `%`, which converts back to the number rounded to 2 decimals; text that is not a number is shown as `%` |
| Tables.ConvCellKeeps | docs/tables.js:176 | non-blank text without white space that ends in `%` is shown as it is |
| Tables.FixedCellKept | docs/tables.js:176 | a number written by `toFixed(2)` followed by `%` is shown as it is |
| Tables.LonePercentCellKept | docs/tables.js:176 | a lone `%` is shown as it is |
| Tables.ConvCellIdempotent | docs/tables.js:173-177 | formatting a shown Conv% value again changes nothing |
| Tables.AvgConvShown | docs/tables.js:59-62 | the average row's `conv` is shown as it is |
| Tables.SignedPercentKept | docs/tables.js:86 | a delta row's non-empty `conv` is shown as it is |
| Tables.Field | docs/tables.js:111 | a record's cell is present exactly when the record has that header |
| Tables.NormalizeRecord | docs/tables.js:110-121 | `team` and `conv` are the trimmed cell text (`undefined` as ""), `played` and each statistic are `toNumberOrNull` of their cell, `_sortKey` is 1, and the row is neither an average nor a delta row |
| Tables.NormalizedTrimmed | docs/tables.js:111-118 | trimming the mapped `team` or `conv` again changes nothing |
| Tables.Select | docs/tables.js:122 | `filter` never keeps more elements than it is given; SelectMembers and SelectAppend give which it keeps and in what order |
| Tables.Map | docs/tables.js:110 | `map` keeps the length, and entry `i` is the function applied to element `i` |
| Tables.SelectMembers | docs/tables.js:122 | `filter` keeps an element exactly when it is in the input and satisfies the predicate |
| Tables.SelectAppend | docs/tables.js:122 | `filter` keeps the input order |
| Tables.MapAppend | docs/tables.js:110 | `map` keeps the input order |
| Tables.LoadRows | docs/tables.js:110-122 | loading never yields more rows than records; LoadRowsMembers, LoadRowsLoaded and LoadRowsAppend give which rows, their shape and their order |
| Tables.LoadRowsMembers | docs/tables.js:110-122 | a row is loaded exactly when it is the mapping of some record whose trimmed team is not empty |
| Tables.LoadRowsLoaded | docs/tables.js:110-122 | every loaded row has a non-empty trimmed team, a trimmed `conv` and `_sortKey` 1, and is neither an average nor a delta row |
| Tables.LoadRowsAppend | docs/tables.js:110-122 | loading keeps the order of the records |
| Tables.FilterQuery | docs/tables.js:188-193 | the filter is cleared exactly when the box holds only white space; otherwise the query is the trimmed text lower-cased, as long as the trimmed text and already lower case |
| Tables.Matches | docs/tables.js:195-199 | the `setFilter` predicate keeps the average row under every query, and a team row only for a query no longer than its name; FilteredMembers gives the full condition |
| Tables.Filtered | docs/tables.js:190-199 | a cleared filter shows every row, and a filter never adds rows |
| Tables.FilteredMembers | docs/tables.js:195-199 | a row is shown exactly when the filter is cleared or the row is the average row or its lower-cased team contains the query, so the average row is always shown |
| Tables.FilteredAppend | docs/tables.js:195-199 | the filter keeps the order of the rows |
| Tables.SpacedCapitalQuery | docs/tables.js:188 | typing " A " filters by "a" |
| Tables.ChelseaMatches | docs/tables.js:197-198 | the query "a" keeps a team named "Chelsea" |
| TablesPage.ViewRows | docs/tables.js:215-222 | the view has one row more than the loaded teams |
| TablesPage.ViewRowsShape | docs/tables.js:216-219 | the view starts with the average row itself in both modes, then lists the teams in order, each as its delta row when the toggle is on |
| TablesPage.ViewRowsNoTeams | docs/tables.js:227 | with no teams the toggle changes nothing: the view is the average row alone |
| TablesPage.AverageAlwaysShown | docs/tables.js:196 | under any filter the average row of the view is shown |
| TablesPage.Page.constructor | docs/tables.js:7-8 | the page starts with no rows, no average, no data and no filter |
| TablesPage.Page.RenderTable | docs/tables.js:215-222 | with the toggle present and checked the table's data becomes `withDeltas` of the average followed by the rows; otherwise it is the average followed by the rows; nothing else changes |
| TablesPage.Page.Load | docs/tables.js:233-245 | a successful load sets the rows to the loaded records, the average to their average and the data to their view; a failed load changes nothing; the page invariant is kept |
| TablesPage.Page.OnToggleChange | docs/tables.js:225-230 | the toggle takes its new state, and the table is rendered again only once an average exists and a team was loaded; the page invariant is kept |
| TablesPage.Page.OnFilterInput | docs/tables.js:187-200 | the filter becomes the query typed, and nothing else changes |
| TablesPage.Page.Visible | docs/tables.js:195-199 | the rows shown are never more than the table's data |
| TablesPage.Page.AverageVisible | docs/tables.js:196 | once loaded, the league average is always on display |

## Left out

- JsNumber.NumberOf reads a decimal literal as its exact real value. JavaScript
  rounds it to the nearest double, and a literal of 2^1024 (about 1.8e308) or
  more becomes `Infinity`, which `toNumberOrNull` turns into null
  (docs/tables.js:15). The model returns the exact value there, so its only
  nulls for non-blank text are literals outside the grammar.
- `JsNumber.NumberOf` models a restricted grammar: optional sign, digits,
  optional point and fraction, after white-space trimming. Exponents, hex,
  octal and binary literals, and `"Infinity"` read as `None`. For
  exponents and the radix literals JavaScript gives a number; for
  `"Infinity"` `toNumberOrNull` gives null, as the model does.
- `JsNumber.ToFixed` is exact decimal rounding for every magnitude and every
  number of decimals. JavaScript switches to exponent notation at 10^21,
  rounds the binary double rather than the decimal value, and throws a
  RangeError for more than 100 decimals. `Tables.FmtDelta` and
  `Tables.FmtDeltaOfNumber` accept any number of decimals for the same
  reason. Lines 159-163 and 180-181 pass 0 or 2. Shots and SoT (lines
  165-166) hand `fmtDelta` itself to the widget, so their decimals are
  whatever the widget passes as the second and third arguments, which the
  model does not cover.
- `Tables.Mean`, `Tables.Diff`, `Tables.DeltaRestores`, `Tables.OffsetSum` and
  `Tables.DeltasSumToZero` use exact real arithmetic. In JavaScript the sums
  and division in `mean` and the subtractions in `withDeltas` are IEEE-754
  double operations. So `(x - y) + y` need not be `x` there, and the deltas
  need not sum to exactly 0.
- `JsString.ToLower` lower-cases only the ASCII letters, and strings are
  sequences of code points rather than UTF-16 code units.
- `Tables.FmtDelta` takes the cell value as a number or null. The script
  stores only numbers and null in those fields, so its `""` case and its
  `String(v)` branch for non-finite values cannot occur with real numbers.
- `Tables.ConvCell` takes the cell value as text. `conv` is always text in
  every row the script builds.
- The fetch, PapaParse and its error list are left out (network I/O and a third-party
  library). `TablesPage.Page.Load` receives the parsed records, or `None` when either failed.
- The Tabulator configuration is left out, because it is the widget's own code:
  - the columns;
  - the initial sort on `_sortKey` descending (which puts the average row,
    key 0, after the teams, key 1);
  - the `rowFormatter` styling;
  - the Team cell's HTML;
  - which decimal counts each column passes to `fmtDelta`.
- The widget applies the filter to its data. `TablesPage.Page.Visible`
  states that effect, not the widget's code.
- The Conv% column sorter (docs/tables.js:172) is left out. It is a comparator
  handed to the widget, and it treats text that does not convert as 0.
- `applyFilter` and `currentQuery` (docs/tables.js:185, 202-212) are left out: the
  function is never called and the variable is never assigned.
- The DOM lookups, the status messages and the console logging are left out, as
  browser plumbing. The presence of the toggle and its checked state are
  the fields `hasToggle` and `toggleChecked`.
- `Tables.OffsetSum` and `Tables.DeltasSumToZero` hold only for a column in
  which every team has the statistic. With nulls, `withDeltas` counts a
  null as 0 while `mean` skips it, so the deltas need not sum to zero.
