# Data regression comparators, modelled in Dafny

This project models the comparison engine of a small data-regression tool.
The engine compares a "current" and a "previous" version of a table and
reports three things: a schema diff, a value diff, and a potential-regression
flag with summary counts. There are two comparators:

- `DFComparator` (`compare_data.py`), the main one, which works on pandas frames:
  - A dtype-compatibility classifier works on the dtype text. The text is
    lower-cased and tested for substrings of the numeric, string and
    datetime families, then for exact equality.
  - The schema diff reports added, removed and type-changed columns.
  - The value diff does the following, in order:
    1. It returns early when the row counts differ or both tables are empty.
    2. It drops the columns with incompatible type changes.
    3. It drops every row whose projection on the compared columns occurs
       more than once in the concatenation of both tables.
    4. It checks that every primary-key column is still present.
    5. It counts changed cells per non-key column, first on a key-indexed
       fast path. When the two key indexes are not identical, it counts
       instead over an outer merge on the keys.
  - The comparator updates its held tables as it goes: it replaces them by
    their filtered versions and indexes them by the keys (and resets the
    index again on the fallback).
- `ParquetComparator` (`compare_parquet.py`), the older one, uses the same
  schema diff. Its value diff compares, position by position with plain
  `!=`, every common column whose dtype is unchanged.

## How the model is built

- `tables.dfy` (module `Tables`) holds the table datatype:
  - Tables are row-major values with an ordered column list, the index
    levels created by `set_index`, a dtype text per column, and rows that
    map column names to cells.
  - A cell is `Missing` or `Value(v)`.
  - pandas `==` is `CellEq`, under which a missing cell equals nothing.
  - The comparator's null-safe equality coincides with identity of cells.
- `type_compat.dfy` (module `TypeCompat`) models the classifier, with
  substring search written out.
- `schema.dfy` (module `Schema`) holds the shared schema diff: a
  specification function `Diff` and the looping method `CompareSchema`
  proved equal to it.
- `row_filter.dfy` (module `RowFilter`) models the unchanged-row filter
  (`drop_duplicates(keep=False)` over the tagged concatenation).
- `alignment.dfy` (module `Alignment`) holds the changed-cell counts:
  - `NullSafeMismatches` is the positional, null-safe count.
  - `Inequalities` is the parquet comparator's positional `!=` count.
  - `PairMismatches` is the merge fallback's count over every key-sharing
    (previous, current) pair.
- `report.dfy` (module `Report`) holds the value diff and statistics
  records, the percentage, and the regression flag.
- `data_compare.dfy` (module `DataCompare`) holds the specification
  functions of `compare_values` and the class `DFComparator`:
  - `ValueDiffOf` is the result, or the `KeyError` raised for a missing key.
  - `HeldTablesAfter` is the tables the comparator holds afterwards.
  - The fields `current` and `previous` are reassigned by `CompareValues`,
    whose loops live in `IndexedChanges`, `MergedChanges` and
    `IncompatibleTypeColumns`.
  - Each method's postcondition ties its result and the new state to those
    functions of the old state.
- `data_compare_props.dfy` (module `DataCompareProperties`) holds properties
  that relate several operations:
  - reordered rows report nothing;
  - with unique, aligned keys the merge fallback counts exactly what the
    fast path counts;
  - one changed cell is reported as one changed row.
- `parquet_compare.dfy` (module `ParquetCompare`) holds the parquet
  comparator as a class with constant fields, since nothing is updated after
  construction.
- `scenarios.dfy` (module `Scenarios`) states, on concrete tables, the
  behaviours the repository's test suite checks.

Two consequences of the code surface in the scenarios. They are stated
there as behaviour, not as defects:

- With duplicate primary keys (the test at `tests/run_tests.py:97-101`), a
  changed current row can lose its only partners to the filter, so no
  value change is reported.
- When keys repeat on both sides and are not aligned, the fallback counts
  every key-sharing pair. `changed_rows` can then exceed the row count, and
  the percentage can exceed 100.

Two more consequences of the code:

- `drop_duplicates(keep=False)` also drops rows repeated within one table,
  so such rows are never reported as changes.
- A missing primary key is detected only when the row counts are equal and
  nonzero, because the early returns come first.

## Model

| member | source | states |
|---|---|---|
| Tables.CellEq | compare_parquet.py:52 | pandas `==` on two cells, whose negation is the `!=` counted here, holds iff they are the same present value: a missing cell equals nothing, not even another missing cell |
| Tables.NullSafeEq | compare_data.py:126 | the null-safe equality (equal under `==`, or both missing) holds iff the two cells are identical |
| TypeCompat.Lower | compare_data.py:12-13 | the lower-cased text has the same length, with every character lower-cased |
| TypeCompat.LowerIdempotent | compare_data.py:12-13 | lower-casing twice is lower-casing once |
| TypeCompat.Contains | compare_data.py:17-18 | Python's `t in s`, tried position by position, holds iff the pattern occurs at some position |
| TypeCompat.ContainsTransitive | compare_data.py:16-18 | a substring of a substring is a substring |
| TypeCompat.IsNumeric | compare_data.py:15-18 | the numeric family test equals the test on "int", "float" and "bool": "uint" adds nothing |
| TypeCompat.IsString | compare_data.py:23-26 | the string family test equals the test on "object" and "str": "string" adds nothing |
| TypeCompat.IsDatetime | compare_data.py:31-34 | the datetime family test equals the test on "datetime" and "timestamp": "datetime64" adds nothing |
| TypeCompat.AreTypesCompatible | compare_data.py:10-43 | compatible iff both lower-cased texts are numeric, or both string-like, or both datetime-like, or they are equal |
| TypeCompat.CompatibleReflexiveSymmetric | compare_data.py:10-43 | the classifier is reflexive and symmetric |
| TypeCompat.CompatibleIgnoresCase | compare_data.py:12-13 | the classifier's verdict does not depend on letter case |
| Schema.TypeChangesAmong | compare_data.py:54-59 | a type change is recorded exactly for the columns whose dtype texts differ, holding both texts verbatim |
| Schema.Diff | compare_data.py:45-67 | added and removed columns are the two set differences; they are disjoint from each other and from the common columns; type changes exactly where common columns' dtypes differ |
| Schema.CompareSchema | compare_data.py:45-67 | the loop over the common columns computes exactly `Diff` |
| Schema.TotalsCountColumnNames | compare_data.py:65-66 | the column totals equal each table's number of distinct column names |
| Schema.ReorderedColumnsNoChange | tests/run_tests.py:38-43 | a reordering of the same columns and dtypes yields no added, removed or type-changed column |
| Report.Percentage | compare_data.py:134 | the percentage is nonnegative, at most 100 when the part is at most the whole, and 0 exactly when the part is 0 |
| Report.StatisticsOf | compare_data.py:169-190 | the report carries both diffs; the flag holds iff schema issues, a row decrease or a changed column exist; the summary counts are removed plus type-changed columns, and changed columns |
| Report.RowDecreaseIsRegression | compare_data.py:174-179 | fewer current rows always raise the regression flag |
| Report.RowIncreaseAloneIsNoRegression | compare_data.py:174-179 | more rows with no schema issue and no changed column is no regression |
| RowFilter.ProjectRows | compare_data.py:101 | every row is projected on the compared columns, in order |
| RowFilter.Survivors | compare_data.py:101-103 | a row survives iff it occurs exactly once in the concatenation of both sides; no more rows than the side had |
| RowFilter.SurvivorsNone | compare_data.py:101 | nothing survives when every row occurs other than once |
| RowFilter.SurvivorsAll | compare_data.py:101 | every row survives when each occurs exactly once |
| RowFilter.SurvivorsKeepOrder | compare_data.py:101-103 | survivors keep their relative order |
| RowFilter.SurvivorsAppend | compare_data.py:101-103 | filtering the concatenation and splitting by origin equals filtering each side |
| RowFilter.SurvivorsSubmultiset | compare_data.py:101-103 | the survivors of a side are a sub-multiset of that side |
| RowFilter.SurvivorsDistinct | compare_data.py:101 | no surviving row occurs twice on its side |
| RowFilter.FilterUnchanged | compare_data.py:99-106 | neither side grows; a projected row survives on a side iff it occurs exactly once on that side and not at all on the other |
| RowFilter.FilterUnchangedRowsOver | compare_data.py:101-106 | the filtered sides hold exactly the compared columns |
| RowFilter.FilterSidesDisjoint | compare_data.py:101-103 | a row surviving on one side occurs nowhere on the other |
| RowFilter.RepeatedRowDropped | compare_data.py:101 | a row repeated within one side is dropped even if the other side lacks it |
| RowFilter.PermutedRowsAllDropped | compare_data.py:101 | two sides holding the same rows in any order leave nothing |
| Alignment.NullSafeMismatches | compare_data.py:126 | the count is at most the row count, and 0 iff every aligned pair of cells is identical (missing equals missing) |
| Alignment.Inequalities | compare_parquet.py:52 | the count is at most the row count, and 0 iff every aligned pair is `==`-equal (missing equals nothing) |
| Alignment.InequalitiesCountMore | compare_parquet.py:52 | `!=` counts the null-safe mismatches plus the positions where both cells are missing |
| Alignment.KeyMatchMismatches | compare_data.py:140-151 | the key-sharing current rows that differ from one previous row in the column; 0 iff every key-sharing row agrees |
| Alignment.PairMismatches | compare_data.py:140-151 | the fallback's count is 0 iff every key-sharing (previous, current) pair agrees in the column, and at most the number of pairs |
| DataCompare.ComparedColumns | compare_data.py:98 | a column is compared iff it is common to both tables and its type change is not incompatible |
| DataCompare.FirstMissingKey | compare_data.py:112-114 | no key is reported iff every key column is present; a reported key is the first key column, in key order, that is absent |
| DataCompare.IncompatibleColumns | compare_data.py:90-96 | only columns with a recorded type change are excluded, exactly those whose two dtypes are incompatible; a change of letter case alone never excludes |
| DataCompare.FilteredTables | compare_data.py:98-106 | both filtered tables hold the common columns minus the incompatible ones, with no index levels; their rows are the two sides of the unchanged-row filter, no more than before |
| DataCompare.SetIndex | compare_data.py:117-118 | the key columns become the index and leave the columns; the rows and dtypes are unchanged |
| DataCompare.ResetIndex | compare_data.py:138-139 | the index levels become the first columns, followed by the old columns; the rows and dtypes are unchanged |
| DataCompare.FastPathApplies | compare_data.py:116-136 | when non-key columns exist, the keyed comparison needs no fallback iff both sides have the same row keys position by position |
| DataCompare.HeldTablesAfter | compare_data.py:72-139 | when the row counts match and are nonzero, both held tables end with the same index levels: none, or the key columns |
| DataCompare.ChangesOver | compare_data.py:131-135 | a column is in the change map iff its count is nonzero, with that count and its percentage of the original row count |
| DataCompare.KeyedChanges | compare_data.py:116-156 | a column is reported iff it is a non-key compared column whose count is nonzero (positional when the key indexes are aligned or nothing is compared, over key-sharing pairs otherwise), with that count and its percentage of the row count |
| DataCompare.ValueDiffOf | compare_data.py:69-167 | differing counts report only the counts and difference; KeyError iff counts are equal and nonzero and a key column is not compared; the row percentage lies in [0, 100]; without keys nothing changes; changed columns are compared non-key columns with a nonzero count |
| DataCompare.BothEmptyValueDiff | compare_data.py:82-88 | two empty tables give zero counts and difference, 0% changed rows and no changed column, whatever the keys |
| DataCompare.HeldTablesRows | compare_data.py:72-106 | the early returns leave the held tables untouched; otherwise they hold the filtered rows, no more rows than before |
| DataCompare.RestrictedWellFormed | compare_data.py:101-106 | the filtered tables are well formed |
| DataCompare.IndexingWellFormed | compare_data.py:117-139 | `set_index` on the keys and `reset_index` after it keep a table well formed |
| DataCompare.HeldTablesWellFormed | compare_data.py:99-139 | the tables the comparator holds after `compare_values` stay well formed |
| DataCompare.ResetKeepsNonKeyColumns | compare_data.py:138-143 | after `reset_index` the non-key columns are those the fast path had |
| DataCompare.StatisticsOutcome | compare_data.py:169-190 | the KeyError of the value diff propagates; otherwise the report holds the schema diff and the value diff, the schema issue total is removed plus retyped columns, the changed-column total is the size of the change map, and the flag holds iff a column was removed, a type changed, rows decreased or a column changed |
| DataCompare.IncompatibleTypeColumns | compare_data.py:90-96 | the loop collects exactly the columns whose type change is incompatible |
| DataCompare.IndexedChanges | compare_data.py:119-135 | the fast path fails iff the key indexes differ, and otherwise computes the positional change map |
| DataCompare.MergedChanges | compare_data.py:140-156 | the fallback loop computes the change map over key-sharing pairs |
| DataCompare.DFComparator.constructor | compare_data.py:5-8 | the comparator holds the two tables and the key list |
| DataCompare.DFComparator.CompareSchema | compare_data.py:45-67 | the schema diff of the held tables |
| DataCompare.DFComparator.CompareValues | compare_data.py:69-167 | the result is `ValueDiffOf` of the old tables, and the held tables become `HeldTablesAfter` of them, still well formed |
| DataCompare.DFComparator.GenerateStatistics | compare_data.py:169-190 | the result is `StatisticsOutcome` of the old tables, with the held tables updated as by `compare_values` |
| DataCompareProperties.ProjectRowsPermutation | compare_data.py:101 | projecting permuted rows gives permuted projections |
| DataCompareProperties.OneSideEmptyNoChanges | compare_data.py:119-156 | when either side has no row left after the filter, no column is reported: a row on one side only is never compared |
| DataCompareProperties.PermutedFilterEmpty | compare_data.py:101-103 | permuted tables leave no row after the filter |
| DataCompareProperties.EmptySideNoValueChanges | compare_data.py:101-158 | when the filter leaves no row on one side, no column is reported and the row percentage counts the other side's survivors |
| DataCompareProperties.EmptySideKeysPresent | compare_data.py:110-158 | with the keys present and one side empty after the filter, the value diff is the row counts, that percentage and an empty change map |
| DataCompareProperties.EmptyFilterNoValueChanges | compare_data.py:158 | when nothing survives the filter, the row percentage is 0 and no column changes |
| DataCompareProperties.ReorderedRowsNoValueChanges | compare_data.py:69-167 | the same rows in another order report 0% changed rows and no changed column |
| DataCompareProperties.KeyMatchSingle | compare_data.py:140-151 | a previous row with exactly one key partner differs at most once |
| DataCompareProperties.MergeAgreesFrom | compare_data.py:136-156 | with unique, aligned keys the pair count from a position on equals the positional count |
| DataCompareProperties.MergeAgreesWithPositional | compare_data.py:116-156 | with unique, aligned keys the merge fallback counts exactly what the fast path counts |
| DataCompareProperties.SurvivorsSingle | compare_data.py:101 | when only one row of a side occurs once, it alone survives |
| DataCompareProperties.ProjectFullRows | compare_data.py:101 | projecting rows on all their columns leaves them unchanged |
| DataCompareProperties.SameSchemaComparesAll | compare_data.py:90-98 | identical schemas record no type change and compare every column |
| DataCompareProperties.CompatibleChangesCompareAll | compare_data.py:90-98 | with no column added and no incompatible type change, every current column is compared |
| DataCompareProperties.RetypedValueDiff | compare_data.py:90-167 | the value diff reads the current dtypes only through the choice of compared columns: a retyping that keeps that choice keeps the value diff |
| DataCompareProperties.SingleChangeFiltered | compare_data.py:101-103 | after changing one cell only the two versions of that row survive |
| DataCompareProperties.DistinctRowsSurvive | compare_data.py:101-103 | when no row repeats across both sides, every row survives |
| DataCompareProperties.SameSchemaFiltered | compare_data.py:98-106 | with the same schema, every column is compared and each side keeps exactly its whole rows that occur once among both tables' rows |
| DataCompareProperties.DistinctRowsKept | compare_data.py:98-106 | with the same schema and no repeated row, the filter keeps every row and column |
| DataCompareProperties.SingleRowChanges | compare_data.py:119-135 | one surviving row per side differing in one column reports that column once |
| DataCompareProperties.OneChangedCellReported | compare_data.py:69-167 | changing one non-key cell under unique keys reports that column with one changed row, and one changed row in the percentage |
| ParquetCompare.ChangesAmong | compare_parquet.py:49-57 | a column is reported iff it is among the given columns, keeps its dtype and differs under `!=` somewhere |
| ParquetCompare.ValueDiffOf | compare_parquet.py:38-65 | counts always present; a count mismatch gives the difference and no changes; equal counts give no difference key and a change map over common columns |
| ParquetCompare.StatisticsOutcome | compare_parquet.py:67-88 | the report holds the shared schema diff and the value diff; the schema issue total is removed plus retyped columns, the changed-column total is the size of the change map, and the flag holds iff a column was removed, a type changed, rows decreased or a column changed |
| ParquetCompare.ParquetComparator.constructor | compare_parquet.py:8-12 | the comparator holds the two tables the files stand for |
| ParquetCompare.ParquetComparator.CompareSchema | compare_parquet.py:14-36 | the shared schema diff of the two tables |
| ParquetCompare.ParquetComparator.CompareValues | compare_parquet.py:38-65 | the loop over the common columns computes exactly `ValueDiffOf` |
| ParquetCompare.ParquetComparator.GenerateStatistics | compare_parquet.py:67-88 | the report is `StatisticsOutcome` of the two tables |
| ParquetCompare.Reported | compare_parquet.py:49-57 | a reported column is in both dtype maps with the same dtype, and the tables have the same, nonzero, row count |
| ParquetCompare.EntryOf | compare_parquet.py:52-57 | a reported column's count is between 1 and the row count, its percentage above 0 and at most 100 |
| ParquetCompare.ChangedColumnsExactly | compare_parquet.py:49-57 | a column is reported iff it is common, keeps its dtype and differs under `!=` somewhere; its count is the `!=` count, between 1 and the row count, at most 100% |
| ParquetCompare.TypeChangeExcludesColumn | compare_parquet.py:51 | a column whose dtype changed is never reported |
| ParquetCompare.BothMissingIsChange | compare_parquet.py:52 | two missing cells at one position make the column changed |
| ParquetCompare.EqualCountsNoRowRegression | compare_parquet.py:59-77 | the absent difference reads as 0, so the flag rests on the schema and the changed columns alone |
| Scenarios.IntervalCountsAsNumeric | compare_data.py:15-21 | "interval" contains "int", so it is compatible with "float64" |
| Scenarios.IntegerAndFloatCompatible | compare_data.py:12-21 | "Int64" and "float64" are compatible, the letter case notwithstanding |
| Scenarios.IntToFloatChangeReported | tests/run_tests.py:88-94 | an int64 column turned float64 is recorded as a type change and still compared: its changed row is reported, 50% |
| Scenarios.IntegerToObjectIncompatible | compare_data.py:10-43 | "int64" and "object" are not compatible |
| Scenarios.ValueChangeWithPrimaryKey | tests/run_tests.py:70-75 | one changed value under key `id` is one changed row of `val`, 50% |
| Scenarios.MissingReplacedIsChange | tests/test_data_parquet.py:73-78 | a missing value replaced by a value is a change |
| Scenarios.MissingPrimaryKeyRaises | tests/run_tests.py:78-85 | a key that is not a column raises KeyError, also from the statistics |
| Scenarios.RowCountDecreaseFlagsRegression | tests/run_tests.py:61-67 | one row fewer reports a difference of -1 and a potential regression |
| Scenarios.DuplicatePrimaryKeys | tests/run_tests.py:97-101 | with duplicate keys the changed row's partners are filtered out, so no column is reported while 50% of rows changed |
| Scenarios.FallbackCountExceedsRowCount | compare_data.py:136-156 | repeated, unaligned keys make the fallback count 4 changed pairs among 3 rows, a percentage above 100 |

## Left out

- File reading (`pd.read_parquet`, `pq.read_schema`) is left out. The parquet comparator's constructor takes the two tables; the arrow schemas it reads are never used by the comparison.
- `print_report`, the `__main__` demos and the JSON dump are left out. They only format output.
- The wall-clock `timestamp` of both reports is left out. It is a clock read.
- `round(..., 2)` is left out. Percentages are exact rationals (`real`), not floats rounded to two decimals.
- The order of `list(set)` results is left out. Added and removed columns are sets, and the compared columns follow the current table's column order.
- The `df_origin` column is left out. The tagging is folded into splitting the survivors by origin. Its insertion into the caller's frames, which the comparator aliases, is not modelled: tables are values.
- Cells are abstract integers. An integer and a float with the same value are one value; pandas' dtype promotion in `concat` and `merge` is not modelled, and dtypes are compared as their text. In particular two `CategoricalDtype`s with different categories both read "category": the parquet comparator skips such a column as retyped (compare_parquet.py:51), while the model compares it.
- The fast path's failure is modelled only as differing key indexes. Other exceptions pandas might raise inside the `try` are not modelled.
- The `continue` for a column that is a primary key (compare_data.py:121-122) never fires, because `set_index` has moved the keys out of the columns. The `continue` for a missing `_prev`/`_curr` column (compare_data.py:147-148) never fires either. Neither is modelled as a branch.
- `drop_duplicates` with an empty column subset is not modelled as pandas implements it. When no column is compared (no common column, or none compatible) and the row counts are equal and nonzero, pandas' `duplicated` fails at compare_data.py:101, so `compare_values` raises. The model instead applies the same rule: every row projects to the same empty row, no row survives, and the comparison returns a value diff (or the KeyError for an absent key).
- Row labels are not modelled. After the filter the comparator's tables keep the labels of the concatenation (compare_data.py:101-103): the current rows are labelled below n and the previous rows from n on, and on the keyless path and at the KeyError the comparator goes on holding these frames. The model keeps only the index levels (none, or the keys); no later step reads these labels, because `set_index` replaces them and the next `concat` ignores them.
- Non-positional index labels on the parquet comparator's tables are not modelled. Its `!=` is taken as positional, which holds for the default index `pd.read_parquet` produces.
- DataCompare.DFComparator.constructor: requires the primary-key names to be distinct. Repeated key names, which pandas would accept in `set_index`, are not modelled.
- `Missing` stands for the NaN, None and NaT of numpy-backed dtypes. The `pd.NA` of pandas' nullable extension dtypes (`Int64`, `boolean`, `string`) is not modelled: under its three-valued logic a value against `pd.NA` is counted by neither comparator, while the model counts it.
- Tables.WellFormed: requires distinct column names. pandas accepts repeated column names; the column totals would then count every repetition, and a repeated common column makes the dtype lookup of `compare_schema` fail. Neither behaviour is modelled.
- TypeCompat.Lower: folds only ASCII letters, where Python's `str.lower` folds all of Unicode. pandas dtype names are ASCII, so the classifier's verdicts are unaffected.
