# Medellín metro passenger data: loader and tidy views

This project models the data-normalisation and reshaping logic of the
metro dashboard, `Dashboard/pax_utils.py`, and proves properties of that model.

- **Loader** (`MetroData`, module `Loader`):
  - `rename_cols` renames the 13 raw passenger-count columns (`L-A_PAX_MOV`, …, `LÍNEA_O`) to line identifiers (`LineA`, …, `LineO`).
  - `replace_column_types` turns the count columns at positions 5..17 from thousands-separated text (`"1.234.567"`) into numbers. It writes each cell as text, deletes every `.` and parses what remains.
  - `preprocess_data` chains the two.
  - A frame is a header plus rows of cells. A cell is missing (NaN), text, or an integer.
- **Aggregator** (`EDA`, modules `Tidy`, `Grouping`, `MonthlyView`, `GroupedViews` and `Eda`): reshapes the wide table into three long tidy tables of (bucket, Passengers, Line).
  - The wide table has one record per (year, month): year, month, semester, and one optional count per line column.
  - `transform_df_month`: one block per line in column order. Each block holds the source rows whose count for that line is present, in source order, keyed by (year, month).
  - `transform_df_sem`: group by (year, semester), sum each line, and key each group by the text `"<year>-<semester>"`. The model keeps the intermediate frame of lines 100-103: one row per group holding its bucket and its line sums. The stacking loop reads that frame.
  - `transform_df_yr`: group by year and sum each line.
  - `EDA.__init__` builds the three views in that order.
- **Supporting modules**:
  - `Decimal` holds Python's `str(int)` and the integer parse used by `float()` on a digit string.
  - `Wrappers` holds `Option` and `Result`.

The loops of the source are methods with loop invariants. Each is proved against a specification: the monthly and stacking loops equal a specification function, and the column loop meets the predicates `IsConversionOf` and `IsFirstFailure`:

| loop | source lines | method |
|---|---|---|
| column loop | 49-50 | `ReplaceColumnTypes`, `ConvertColumn` |
| monthly `for line in lines` / `pd.concat` | 71-88 | `TransformMonthly` |
| semestral and yearly stacking | 106-110, 124-128 | `Unpivot` |

The rename table, the per-cell parse, the key lambdas and the group-by-sum are functions. The properties are lemmas about those functions.

Where the code and its documentation disagree, the model follows the code, with one exception: on three inputs where the code raises, the model's tables give the evidently intended result instead (see "## Findings"). Elsewhere:
- **Grouped views zero-fill.** A (year, semester) or year group whose counts for a line are all missing appears in the semestral or yearly table with Passengers 0. It is not dropped, because pandas' `sum` treats missing as 0.
- **Monthly view is not sorted.** The `sort_values` at line 86 discards its result, so each monthly block stays in source row order.
- **A bad month only fails when its count is present.** A month outside 1..12 raises only on a row that `dropna` keeps for that line. A row whose count is missing never reaches the date parse.

## Model

| member | source | states |
|---|---|---|
| Loader.RawLine | Dashboard/pax_utils.py:22-37 | the rename dictionary lookup: a name maps to a line exactly when it is that line's raw column name, and to nothing when no line has that raw name |
| Loader.RawLineOfRawName | Dashboard/pax_utils.py:22-37 | each of the 13 raw names is found in the rename table and leads back to its own line |
| Loader.NamedLineOfLineName | Dashboard/pax_utils.py:22-37 | each line identifier names exactly one line, so the renamed header can be read back |
| Loader.Rename | Dashboard/pax_utils.py:22-37 | a raw line name becomes that line's identifier; every other column name is unchanged |
| Loader.RenameTableInjective | Dashboard/pax_utils.py:22-37 | the 13 raw names are distinct and the 13 target identifiers are distinct |
| Loader.RenameCols | Dashboard/pax_utils.py:20-40 | the header keeps its length and order; each raw line name is replaced by its identifier and every other name is kept |
| Loader.LineColumns | Dashboard/pax_utils.py:57 | the line list is the header from position 5 up to 18, clipped to the header's length (so 13 names when the header has at least 18 columns) |
| Loader.LineListOfRawHeader | Dashboard/pax_utils.py:45-57 | on a raw header that carries the 13 raw names at positions 5..17, the line list after renaming is the 13 line identifiers in table order |
| Loader.StripDots | Dashboard/pax_utils.py:50 | the stripped text holds no '.' and is no longer than the original |
| Loader.ParseCount | Dashboard/pax_utils.py:50 | after deleting every '.', "nan" gives a missing value, an optionally signed digit run gives its integer, and anything else is an error; a cell never stays text |
| Loader.ParseGrouped | Dashboard/pax_utils.py:50 | every count written with '.' thousands separators parses back to that count |
| Loader.GroupedExample | Dashboard/pax_utils.py:50 | the count 1234567 is written "1.234.567" in the raw file's format |
| Loader.ParseSeparatedExample | Dashboard/pax_utils.py:50 | "1.234.567" parses to 1234567 |
| Loader.ParseRejectsLetters | Dashboard/pax_utils.py:50 | text that is not a number after stripping ("abc", "1.2a") is an error, not skipped |
| Loader.ParseAsText | Dashboard/pax_utils.py:47-50 | writing a missing or numeric cell as text (NaN as "nan") and parsing it gives the same cell back |
| Loader.ConvertColumn | Dashboard/pax_utils.py:50 | one column's cells are replaced by their parse, every other cell is kept; the column fails exactly when some cell does not parse, and then at the first such row |
| Loader.ReplaceColumnTypes | Dashboard/pax_utils.py:42-51 | succeeds exactly when every cell of the count columns 5..17 parses; the result has the same header and rows, every count cell is its parse (never text) and every other cell is unchanged; on failure the error names the first bad cell, column by column, top to bottom |
| Loader.Preprocess | Dashboard/pax_utils.py:14-18 | renames the header, then converts the count columns, with the guarantees of both |
| Decimal.NatText | Dashboard/pax_utils.py:76 | the decimal text of a natural number is a non-empty digit run without a leading zero |
| Decimal.DigitsValueOfNatText | Dashboard/pax_utils.py:76 | reading the decimal text of n gives n back |
| Decimal.IntText | Dashboard/pax_utils.py:76 | `str(int)` is non-empty, all digits for a non-negative number, and a '-' followed by digits exactly for a negative one |
| Decimal.ParseInt | Dashboard/pax_utils.py:50 | a text parses exactly when it is a digit run, optionally after a single sign |
| Decimal.ParseIntText | Dashboard/pax_utils.py:50 | parsing the text of any integer gives that integer back |
| Decimal.IntTextInjective | Dashboard/pax_utils.py:76 | distinct integers have distinct texts |
| MonthlyView.MonthKey | Dashboard/pax_utils.py:75-81 | a row's key is the calendar month (year, month); a month outside 1..12 is an error |
| MonthlyView.MonthKeysOrderAsDates | Dashboard/pax_utils.py:81 | parsed month keys order as (year, month) pairs, so 2019-9 comes before 2019-10 |
| MonthlyView.MonthBlockFailureSticks | Dashboard/pax_utils.py:75-81 | once a block has hit a bad month, later rows do not change the error |
| MonthlyView.MonthlyFailureSticks | Dashboard/pax_utils.py:71-88 | once a line's block has failed, later lines do not change the error |
| MonthlyView.BuildBlock | Dashboard/pax_utils.py:73-85 | one pass over the rows builds exactly the line's block, or stops at the error of its first bad kept month |
| MonthlyView.TransformMonthly | Dashboard/pax_utils.py:65-90 | the loop over lines builds exactly the monthly table: one block per line in column order, or the first error. Corrected behaviour: differs from the code as written on a line with no present count and on an empty line list, see "## Findings" |
| MonthlyView.MonthBlockFails | Dashboard/pax_utils.py:73-81 | a line's block fails exactly when a row with a present count for that line has a month outside 1..12 |
| MonthlyView.MonthBlockConserves | Dashboard/pax_utils.py:73-85 | a block has one row per present count of the line and carries the line's total passengers |
| MonthlyView.MonthBlockRows | Dashboard/pax_utils.py:73-85 | every row of a block is some source row's (year, month), its count unchanged, and the line label |
| MonthlyView.Kept | Dashboard/pax_utils.py:74 | the rows `dropna` keeps for a line: strictly increasing positions, exactly the rows whose count is present, one per present count |
| MonthlyView.MonthBlockIsKeptRows | Dashboard/pax_utils.py:73-86 | a block that succeeds is exactly the kept rows, each once and in source order: its j-th row is the j-th kept row's (year, month), its count and the line label |
| MonthlyView.MonthlyUpToLength | Dashboard/pax_utils.py:71-88 | the blocks of the first k lines hold one row per present count of those lines |
| MonthlyView.MonthlyUpToBlockAt | Dashboard/pax_utils.py:71-88 | line-major order: in the first k blocks, line li's block sits unchanged right after the present counts of the lines before it |
| MonthlyView.MonthlyBlockBound | Dashboard/pax_utils.py:71-88 | each line's block lies within the monthly table |
| MonthlyView.MonthlyRowOf | Dashboard/pax_utils.py:71-88 | the row at position (present counts of the lines before li) + j is the j-th kept source row of line li, so the table is line-major and source-ordered within a line |
| MonthlyView.MonthlyUpToSpec | Dashboard/pax_utils.py:71-88 | after the first k lines: failure exactly when some kept row of those lines has a bad month, otherwise one row per present count and the passengers of those lines |
| MonthlyView.MonthlySpec | Dashboard/pax_utils.py:71-90 | the monthly table fails exactly when some kept row has a bad month; otherwise its row count is the number of present counts over all lines and its passengers total is the table's total |
| MonthlyView.MonthlyKeepsSourceOrder | Dashboard/pax_utils.py:86-88 | the discarded sort leaves October before September when the source has them in that order |
| MonthlyView.MissingCountSkipsMonthCheck | Dashboard/pax_utils.py:74-81 | a month 13 on a row whose count is missing raises nothing, because `dropna` removes the row first |
| MonthlyView.MonthlyAsWrittenUpToAgrees | Dashboard/pax_utils.py:75-77 | over lines that each have a present count, the code as written and the corrected table agree |
| MonthlyView.MonthlyAsWrittenAgrees | Dashboard/pax_utils.py:71-90 | when there are line columns and each has a present count, the code as written and the corrected table agree |
| MonthlyView.MonthlyAsWrittenUpToSucceeds | Dashboard/pax_utils.py:71-88 | when the code as written does not raise on the first k lines, each of them has a present count and it agrees with the corrected table |
| MonthlyView.MonthlyAsWrittenSucceeds | Dashboard/pax_utils.py:71-90 | the converse: whenever the code as written does not raise, there are line columns, each has a present count, and its table is the corrected one |
| MonthlyView.MonthlyAsWrittenFailsOnEmptyLine | Dashboard/pax_utils.py:74-77 | as written, a line with no present count makes the "YearMonth" assignment raise; the corrected table omits that line |
| MonthlyView.MonthlyAsWrittenFailsWithoutLines | Dashboard/pax_utils.py:88-90 | as written, an empty line list makes the final column selection raise; the corrected table is empty |
| Grouping.KeyOf | Dashboard/pax_utils.py:98-119 | a row's group key is exactly (year, semester) when grouping by semester and (year) when grouping by year |
| Grouping.TupleOrder | Dashboard/pax_utils.py:98-119 | group keys compare like Python tuples, a strict total order |
| Grouping.Insert | Dashboard/pax_utils.py:98-119 | inserting a key adds exactly that key to the list |
| Grouping.InsertSorted | Dashboard/pax_utils.py:98-119 | inserting into a strictly ascending key list keeps it strictly ascending |
| Grouping.GroupKeys | Dashboard/pax_utils.py:98-119 | every group key has the grouping's width |
| Grouping.GroupKeysSorted | Dashboard/pax_utils.py:98-119 | the groups come out in strictly ascending key order, as pandas' groupby sorts them |
| Grouping.GroupKeysMembers | Dashboard/pax_utils.py:98-119 | the groups are exactly the distinct keys of the rows |
| Grouping.SortedDistinct | Dashboard/pax_utils.py:98-119 | each group appears once |
| Grouping.AllMissingGroupSumsToZero | Dashboard/pax_utils.py:98-119 | a group with no present count of a line sums to 0 |
| Grouping.GroupBySum | Dashboard/pax_utils.py:98-119 | one group per distinct key, in key order, holding for each line the sum of that line's present counts over the group's rows |
| Grouping.PartitionSum | Dashboard/pax_utils.py:98-119 | summing over distinct keys that cover every row gives each row exactly once |
| Grouping.GroupSumsConserve | Dashboard/pax_utils.py:98-119 | for each line the group sums add up to the line's total |
| Grouping.SemestersAddUpToYear | Dashboard/pax_utils.py:98-119 | for each line and year, the sums of that year's semester groups add up to the year's group sum |
| GroupedViews.SemesterLabelInjective | Dashboard/pax_utils.py:100-102 | the `"<year>-<semester>"` label determines the year and semester, so distinct groups get distinct labels |
| GroupedViews.WithBuckets | Dashboard/pax_utils.py:100-103 | labelling the groups with their buckets keeps one row per group |
| GroupedViews.GroupedFrame | Dashboard/pax_utils.py:98-103 | the labelled grouped frame has one row per group key and one sum per line column |
| GroupedViews.LineRows | Dashboard/pax_utils.py:107-109 | one line's block has one row per group |
| GroupedViews.StackedLength | Dashboard/pax_utils.py:106-110 | the first k blocks hold k rows per group |
| GroupedViews.Unpivot | Dashboard/pax_utils.py:106-110 | the stacking loop over lines builds exactly the blocks of all lines, in column order |
| GroupedViews.TransformSemestral | Dashboard/pax_utils.py:92-111 | the semestral table is the (year, semester) grouped sums, stacked line by line. Corrected behaviour: differs from the code as written on an empty table, see "## Findings" |
| GroupedViews.TransformYearly | Dashboard/pax_utils.py:113-129 | the yearly table is the per-year grouped sums, stacked line by line |
| GroupedViews.StackedAt | Dashboard/pax_utils.py:106-110 | the row at position li * G + g is the g-th group's bucket, line li's sum for it and line li's name |
| GroupedViews.GroupedRowAt | Dashboard/pax_utils.py:98-128 | the table has exactly one row per (line, group); the row at li * G + g carries the g-th group's bucket in ascending key order, line li's sum over that group, and line li's name |
| GroupedViews.LineRowsPassengers | Dashboard/pax_utils.py:106-110 | a line's block carries the sum of its groups' sums |
| GroupedViews.BlockPassengers | Dashboard/pax_utils.py:98-110 | a line's block carries exactly that line's passengers |
| GroupedViews.StackedPassengers | Dashboard/pax_utils.py:106-110 | when each block carries its line's total, the first k blocks carry the passengers of the first k lines |
| GroupedViews.GroupedConserves | Dashboard/pax_utils.py:98-128 | the semestral and the yearly table each carry every passenger of the wide table |
| GroupedViews.TwoSemestersExample | Dashboard/pax_utils.py:98-110 | 100 passengers in January 2019 and 150 in July 2019 give semester rows of 100 and 150, not 250 |
| GroupedViews.OneYearExample | Dashboard/pax_utils.py:119-128 | the same two months give one yearly row of 250 |
| GroupedViews.SemestralAsWrittenFailsOnEmptyTable | Dashboard/pax_utils.py:98-102 | as written, an empty wide table makes the "YearSemester" assignment raise; the corrected table is empty |
| Eda.Build | Dashboard/pax_utils.py:55-63 | the three views are built exactly when the monthly one succeeds; each equals its table, each carries all passengers of the wide table, and the monthly one has one row per present count, the grouped ones one row per (line, group); whenever the monthly code as written does not raise, the monthly view is its result. Corrected behaviour: differs from the code as written where the monthly view raises, see "## Findings" |

## Left out

- CSV reading (`MetroData.__init__`, `EDA.__init__` reading through `MetroData()`) is file I/O: the loaded frame and the wide table are parameters.
- The view from the loaded frame to the aggregator's table is not modelled: looking up `AÑO`, `NUM_MES` and `SEMESTRE` by name, and the line list as the frame's own columns 5..17. A line name the table lacks (pandas' KeyError) cannot arise in the model, because the table's lines are its own columns.
- Missing year, month or semester values: `dropna` and `groupby` drop such rows in pandas. Here they are integers, always present.
- Loader.ParseCount: other texts Python's `float()` accepts are not modelled: `inf`, exponents, surrounding whitespace, `_` digit separators, and other spellings of NaN, and non-ASCII Unicode decimal digits such as fullwidth "１２３". They are reported as errors.
- Loader.ParseCount: counts are exact integers. Float precision above 2^53 is not modelled, nor is the `567.0` → `5670` artefact that appears when pandas had already read a column as float.
- The column and row in a `MalformedCount` error are the model's record of where the ValueError is raised. Python's exception carries only the message "could not convert string to float: '<text>'".
- Counts are `int` rather than natural numbers, because the parse accepts a sign. Nothing in the model depends on them being non-negative.
- MonthlyView.MonthKey: the date parser's year limits are not modelled, and the key is a (year, month) pair rather than a datetime.
- `ForecastModel` (least-squares fit, `np.round`), display formatting and the dashboard UI in `Dashboard/main.py` are not part of this model.

## Findings

| source | as written | input that shows it | evidently intended | confidence | as-written member | corrected member |
|---|---|---|---|---|---|---|
| Dashboard/pax_utils.py:74-77 | `df_tmp.apply(..., axis=1)` on a line whose counts are all missing returns a copy of the empty three-column frame, and assigning it to the single column "YearMonth" raises | lines LineA, LineB; one row 2019-01 with LineA 5 and LineB missing | the line contributes no rows | not executed | MonthlyView.MonthlyAsWrittenFailsOnEmptyLine | MonthlyView.MonthlySpec |
| Dashboard/pax_utils.py:88-90 | with no line column, `df_transformed` stays the empty frame and selecting `["YearMonth", "Passengers", "Line"]` raises | an empty line list | an empty monthly table | not executed | MonthlyView.MonthlyAsWrittenFailsWithoutLines | MonthlyView.TransformMonthly |
| Dashboard/pax_utils.py:98-102 | on an empty wide table the grouped frame is empty, `apply(..., axis=1)` returns a copy of it, and assigning that to "YearSemester" raises | a table with no rows | an empty semestral table | not executed | GroupedViews.SemestralAsWrittenFailsOnEmptyTable | GroupedViews.GroupedConserves |
