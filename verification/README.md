# CSV reconciliation engine, modelled in Dafny

This project models the reconciliation engine of a CSV reconciliation tool. The engine takes two tables ("file 1" and "file 2"), a column mapping from file-1 column names to file-2 column names, and a set of key columns. Aggregation settings are optional. The engine returns four things:

- statistics;
- the matched records whose mapped fields disagree, with a diff text per differing field;
- the records found only in file 1;
- the records found only in file 2.

The model follows `perform_reconciliation` and its helpers in `utils.py` stage by stage:

- optional pre-aggregation (`aggregate_dataframes`);
- projection of table 2 onto table-1 names (`df2_mapped`);
- composite keys (`create_composite_key`);
- the outer merge, split by its indicator column;
- mismatch detection (`identify_mismatches`);
- assembly of the result.

It also models the conversion between preset sheets and settings in `app.py`:

- the row loop of `import_preset_from_csv`;
- the row construction of `export_preset_to_csv`.

It proves that exporting the settings and importing them again gives them back.

Modules, one per file:

- `Cells` (cells.dfy): a cell is `Null | Int | Text | Bool`. `Str` is `fillna('').astype(str)` on one cell. A table has ordered columns and rows keyed by column.
- `Dicts` (dicts.dfy): Python dictionaries with their insertion order. Overwriting a key keeps its position.
- `Seqs` (seqs.dfy) and `Results` (results.dfy): small shared helpers. `Results` holds the error outcomes; a `ValueError` or `KeyError` in the source becomes an `Err` value.
- `CompositeKey` (composite_key.dfy): `create_composite_key`, plus `'|'.join` and its inverse `split`.
- `Matcher` (matcher.dfy): the full outer equi-join on composite keys, over row positions.
- `Mismatch` (mismatch.dfy): `identify_mismatches`.
- `Aggregate` (aggregate.dfy): `groupby(...).agg(...)` and `aggregate_dataframes`.
- `Reconcile` (reconcile.dfy): `perform_reconciliation`.
- `Preset` (preset.dfy): preset import and export.

Merged column names are modelled as a datatype `Col = Plain | File1 | File2 | Diff`, not as strings with `_file1`, `_file2` and `_diff` suffixes.

Behaviours of the code that are easy to misread, modelled as written:

- **Key columns are compared too.** The comment at utils.py:193 says key columns are skipped, but the test at utils.py:194 skips only names starting with `_` and names without both suffixed columns. The detector therefore compares every mapped column whose name does not start with `_`, key columns included.
- **The diff text** is `File1: <a> | File2: <b>`. In a reported row, a compared column whose two cells agree has a null `_diff` cell.
- **The statistics count joined pairs.** A key shared by `a` rows of file 1 and `b` rows of file 2 gives `a * b` matched or mismatched pairs, one per `both` row of the merge.
- **Aggregation positions index the original tables.** The record ids are assigned after aggregation but used on the un-aggregated inputs. With aggregation, the "only in" results are therefore original rows picked by group position, not aggregated rows (`Reconcile.Assemble`, `Reconcile.OnlyInRowsAreInputRows`). The model numbers groups in first-occurrence order, not in the sorted order of `groupby`. It therefore shows this mix-up but not which original rows pandas picks (see "Left out").
- **New keys after aggregation.** They are the mapped grouping columns of file 1 only. An unmapped grouping column is dropped.
- **Aggregation is skipped silently.** If aggregation is switched on but a grouping list or the reductions are empty, it does not run and no error is raised.
- **A missing grouping column is an error.** It raises a `KeyError` in `groupby`. An empty grouping list on a table with rows raises a `ValueError` ("No group keys passed!"); the engine's own guard never passes one. An empty reduction dictionary leaves nothing to aggregate. All three are modelled as errors.

## Model

| member | source | states |
|---|---|---|
| Cells.StrEmptyIffBlank | utils.py:199-200 | the string comparison reads a cell as "" exactly when it is null or the empty text, so null and "" never differ |
| Cells.StrConflatesIntAndText | utils.py:199-200 | every integer stringifies like the text of its decimal digits (5 and "5", say), so the comparison treats them as equal |
| Dicts.Put | app.py:35 | `d[k] = v` keeps every key listed once: a new key goes last, an overwritten key keeps its place, and only that key's value changes |
| Dicts.EmptyKeys | utils.py:44-51 | a dictionary lists no key exactly when it maps no key, so `list(key_columns.keys())` is empty exactly when the key dictionary is |
| Dicts.Filter | utils.py:138-141 | a dictionary comprehension keeps exactly the entries whose key passes the test, with their values |
| Cells.Str | utils.py:199-200 | no contract of its own; see `Cells.StrEmptyIffBlank` and `Cells.StrConflatesIntAndText` |
| CompositeKey.Join | utils.py:169 | no contract of its own; see `CompositeKey.JoinSplit`, `CompositeKey.SplitJoin`, `CompositeKey.JoinInjective` and `CompositeKey.SeparatorCollision` |
| CompositeKey.Split | utils.py:169 | splitting always gives at least one piece; see `CompositeKey.JoinSplit` and `CompositeKey.SplitJoin` for its relation to `Join` |
| CompositeKey.JoinSplit | utils.py:169 | splitting a key at `|` and joining the pieces again gives the key back, for any string |
| CompositeKey.SplitJoin | utils.py:169 | joining parts that contain no `|` and splitting the result gives the parts back |
| CompositeKey.JoinInjective | utils.py:169 | two lists of `|`-free parts of one length give the same key exactly when they are equal |
| CompositeKey.SeparatorCollision | utils.py:169 | a `|` inside a cell lets two different part lists, `a|b,c` and `a,b|c`, produce the same key |
| CompositeKey.CreateCompositeKey | utils.py:145-169 | an error exactly when the key-column list is empty; otherwise one key per row, which splits back into the row's key parts in key-column order when no part contains `|` |
| CompositeKey.SameKeyIffSameParts | utils.py:160-169 | two rows with `|`-free key cells get the same key exactly when every key column reads the same in both |
| CompositeKey.SamePartsSameKey | utils.py:160-169 | two rows whose key columns read the same get the same key, whether or not the cells contain `|` |
| CompositeKey.NullKeyIsEmpty | utils.py:161-169 | in a key of any number of columns, a null key cell contributes the empty string, so the row gets the key it would get with "" in that cell |
| CompositeKey.AbsentColumnContributesEmpty | utils.py:165-167 | a key column the table lacks contributes "" to every row's key |
| Matcher.OuterJoin | utils.py:54-63 | no contract of its own; see `Matcher.BothPairsSpec`, `Matcher.Unmatched`, `Matcher.JoinPositionsInRange`, `Matcher.JoinPartition` and `Matcher.JoinCartesian` |
| Matcher.RowMatchesSpec | utils.py:54-58 | the partners of one left row are exactly the right rows with its key, in right-row order |
| Matcher.RowMatchesCount | utils.py:54-58 | a left row has one partner per right row carrying its key |
| Matcher.BothPairsSpec | utils.py:54-61 | the `both` rows are exactly the pairs of a left row and a right row with equal keys, each listed once, in row-major order |
| Matcher.Unmatched | utils.py:62-63 | a row is `left_only` (`right_only`) exactly when its key occurs nowhere on the other side, each such row once; the model lists them in ascending position order, not pandas' key order |
| Matcher.JoinPositionsInRange | utils.py:54-63 | every join row of each kind points at real rows of its side |
| Matcher.LeftOnlyUnpaired | utils.py:62 | a `left_only` row has a key absent from the right side and is in no `both` pair |
| Matcher.RightOnlyUnpaired | utils.py:63 | a `right_only` row has a key absent from the left side and is in no `both` pair |
| Matcher.JoinPartition | utils.py:54-63 | a row of either side is `left_only` / `right_only` exactly when it is in no `both` pair |
| Matcher.PairsAsExpected | utils.py:54-61 | for each key, the `both` rows of the first `n` left rows number one per right row with that key for each such left row |
| Matcher.CartesianCount | utils.py:54-61 | that expected number is (left rows with the key) times (right rows with the key) |
| Matcher.JoinCartesian | utils.py:54-61 | for every key the join holds exactly countA × countB `both` rows with that key |
| Mismatch.ComparedColumns | utils.py:189-195 | the compared columns are exactly the requested ones that do not start with `_` and have both the `_file1` and the `_file2` column |
| Mismatch.MismatchIndices | utils.py:199-217 | the kept rows are exactly those with a differing compared column, each once, in row order |
| Mismatch.DiffText | utils.py:208-211 | no contract of its own; see `Mismatch.DiffCells` and `Reconcile.ReportRowOf` |
| Mismatch.Wanted | utils.py:220-224 | no contract of its own; see `Mismatch.WantedMembers` and `Mismatch.WantedOrder` |
| Mismatch.WantedMembers | utils.py:220-224 | the wanted columns are `_composite_key` and the three result columns of every requested column not starting with `_` |
| Mismatch.WantedLength | utils.py:220-224 | there are 1 + 3v wanted columns, v being the number of requested columns not starting with `_` |
| Mismatch.WantedFirst | utils.py:220 | `_composite_key` is the first wanted column |
| Mismatch.WantedAt | utils.py:221-224 | a requested column not starting with `_` has its `_file1`, `_file2` and `_diff` columns at three consecutive positions, right after the columns of the requested columns before it |
| Mismatch.WantedOrder | utils.py:220-224 | the wanted list in full: its length, `_composite_key` first, then each requested column's three columns in request order |
| Mismatch.KeptColumns | utils.py:226-227 | a wanted column is kept exactly when the frame has it, counting the `_diff` column of every compared column |
| Mismatch.KeepFlags | utils.py:226-227 | one flag per wanted column, set exactly when the frame has that column or it is the `_diff` column of a compared column |
| Mismatch.KeptPositions | utils.py:226-227 | the positions of the kept wanted columns, each once, ascending |
| Mismatch.KeptInOrder | utils.py:226-227 | the filter keeps wanted order: its k-th column is the wanted column at the k-th kept position |
| Mismatch.ComparedAreKept | utils.py:206-227 | every compared column keeps its `_file1`, `_file2` and `_diff` columns in the result |
| Mismatch.IdentifyMismatches | utils.py:213-229 | one result row per flagged row; an empty frame when no row differs; every result row has exactly the result columns |
| Mismatch.ResultColumns | utils.py:219-229 | a non-empty result has one column per kept position, and its k-th column is the wanted column at the k-th kept position; with `Mismatch.WantedOrder` this fixes the order: `_composite_key`, then `_file1`, `_file2`, `_diff` per requested column |
| Mismatch.DiffCells | utils.py:206-229 | a result row carries the matched row's two cells of each compared column, and its `_diff` cell is `File1: <a> | File2: <b>` where they differ and null where they agree; its `_composite_key` cell is the matched row's when the matched frame has that column, and null otherwise |
| Mismatch.ReportedIffDiffers | utils.py:186-217 | a matched row is reported exactly when one of its compared columns differs, and never twice |
| Aggregate.GroupReps | utils.py:127-128 | one representative row per group: the rows that open a group, which are those with no null grouping cell and no earlier row with the same tuple, in row order |
| Aggregate.GroupOpenedBy | utils.py:127-128 | every row without a null grouping cell belongs to a group opened at or before it |
| Aggregate.GroupCells | utils.py:127-128 | the cells a reduction sees come from rows of the group, and a group is never empty |
| Aggregate.GroupRows | utils.py:127-128 | the rows of a group are exactly the rows carrying its grouping tuple, each once, in row order |
| Aggregate.GroupCellsAreGroupRows | utils.py:127-128 | the cells a reduction sees are the column's cells of exactly the group's rows, one per row, in row order |
| Aggregate.ReductionsApply | utils.py:127-128 | no contract of its own; see `Aggregate.AggregateTable`, which fails exactly when this does not hold |
| Aggregate.AggRow | utils.py:127-128 | an aggregated row keeps the group's grouping tuple and has a cell for every reduced column, which holds the reduction's value over the group's cells whenever the reduction applies |
| Aggregate.AggregatedRows | utils.py:127-128 | one output row per group, in group order, each the aggregated row of its group |
| Aggregate.AggregateTable | utils.py:127-128 | an error exactly when a grouping column is missing (`KeyError`), the grouping list is empty on a table with rows (`ValueError`), nothing is left to aggregate, or a reduction does not apply to some group's cells (`agg` raises), the first of these naming the error; otherwise the output has the grouping and reduced columns and one row per group |
| Aggregate.GroupsComeFromInput | utils.py:127-128 | each output row's grouping tuple has no null cell and occurs in the input |
| Aggregate.GroupsAreDistinct | utils.py:127-128 | no two output rows share a grouping tuple |
| Aggregate.EveryGroupIsKept | utils.py:127-128 | every input row without a null grouping cell has its group's output row |
| Aggregate.ReducedCells | utils.py:127-128 | each output row has every reduced column; when every reduction applies, each reduced cell is the named reduction's value over that column's cells of the group, in row order |
| Aggregate.Reductions1 | utils.py:114-117 | table 1 reduces exactly the columns it has that are not among its grouping columns, with their functions |
| Aggregate.LastReachingUpTo | utils.py:119-124 | finds the last reduction whose column is mapped to a given table-2 column |
| Aggregate.Reductions2UpTo | utils.py:119-124 | table 2 reduces exactly the mapped targets it has outside its grouping columns; when two reductions reach one target, the later one wins |
| Aggregate.Reductions2 | utils.py:119-124 | no grouping column of table 2 is reduced |
| Aggregate.GroupKeysUpTo | utils.py:131-135 | the new key set is exactly the mapped grouping columns of table 1, each with its mapped target |
| Aggregate.AggregateDataframes | utils.py:97-143 | an error exactly when a side lacks a grouping column, groups a table with rows by nothing, has nothing to reduce, or has a reduction that does not apply to a group's cells; otherwise each side's table is its input grouped by its grouping columns and reduced with that side's reductions, the new keys are the mapped table-1 grouping columns, the new mapping keeps exactly the pairs whose two columns survive, and neither table grows |
| Reconcile.WithRecordIds | utils.py:40 | every row records its 0-based position, and nothing else changes |
| Reconcile.MappedColumns | utils.py:35-37 | the projected columns are exactly the mapped columns whose target is in table 2 |
| Reconcile.ShadowTable | utils.py:32-41 | the projection of table 2 has one row per row of table 2, carrying each mapped cell under its table-1 name and its own position |
| Reconcile.MergedColumns | utils.py:54-58 | no contract of its own; see `Reconcile.Renamed` and `Reconcile.MergeLayout` |
| Reconcile.Renamed | utils.py:54-58 | a column present on both sides gets the suffix of its side, and any other column keeps its name |
| Reconcile.MergeLayout | utils.py:54-58 | the merge has the left columns, the right columns other than the join key, and the columns present on both sides |
| Reconcile.MatchedTable | utils.py:54-61 | one merged row per matched pair |
| Reconcile.ComparedAreMappedPresent | utils.py:32-66 | the detector compares exactly the mapped table-1 columns not starting with `_` that table 1 has and whose target table 2 has |
| Reconcile.MergedCellsAreSourceCells | utils.py:32-61 | on a merged matched row, the `_file1` and `_file2` cells of a compared column are the table-1 cell and the mapped table-2 cell of the pair |
| Reconcile.FlaggedIffPairDiffers | utils.py:54-66 | a matched pair is flagged exactly when it disagrees on some mapped field under null-as-"" string comparison |
| Reconcile.Stage | utils.py:25-30 | aggregation, when it runs, yields valid dictionaries and tables no longer than the inputs |
| Reconcile.Prepare | utils.py:32-58 | a prepared run has a non-empty key set, its two key lists are the composite keys of the two prepared tables over that set, its pairs point into the joined tables, and its only-in positions point into the original inputs |
| Reconcile.PreparedIsConsistent | utils.py:40-63 | the positions the join produces are in range for the inputs, even after aggregation shrank the tables |
| Reconcile.FlaggedPairs | utils.py:66 | the reported pairs are listed in ascending order and point at matched pairs |
| Reconcile.Assemble | utils.py:82-88 | mismatched is the number of reported rows, and matched plus mismatched is the number of `both` pairs |
| Reconcile.PerformReconciliation | utils.py:4-95 | without aggregation the run fails exactly when the key set is empty; with aggregation an aggregation error comes first, and otherwise the run fails exactly when no grouping column of table 1 is mapped; on success the statistics add up to the joined pairs |
| Reconcile.ReportedIffPairDiffers | utils.py:54-66 | a matched pair is in the mismatch report exactly when it disagrees on some compared field |
| Reconcile.KeyCellIsKey | utils.py:47-58 | the `_composite_key` cell of a merged matched row is the key its pair was joined on |
| Reconcile.ReportRowOf | utils.py:54-66 | for any two merged tables, row k of the report shows the two merged cells of the k-th flagged pair for a compared column, a diff text exactly where they disagree, and the pair's key |
| Reconcile.ReportCells | utils.py:32-66 | row k of the report shows the two source cells of the k-th flagged pair for each compared field, with a diff text exactly where they disagree, and the pair's composite key |
| Reconcile.ReportShowsSourceCells | utils.py:66 | the same for a whole run's mismatch report |
| Reconcile.OnlyInRowsAreInputRows | utils.py:68-87 | the only-in results are the input rows at the unmatched positions, in ascending position order, not pandas' key order; they are an empty frame when there are none, and the counts equal the numbers of unmatched join rows |
| Reconcile.OnlyIn | utils.py:69-80 | no contract of its own; see `Reconcile.OnlyInLookup` and `Reconcile.OnlyInRowsAreInputRows` |
| Reconcile.OnlyInLookup | utils.py:69-73 | `iloc` by positions returns the rows at those positions under the table's columns |
| Reconcile.RunIsAssembled | utils.py:25-95 | a successful run is the assembly of its join; without aggregation the joined tables are the inputs |
| Reconcile.LeftOnlyRowsHaveNoPartner | utils.py:62-71 | each row of the left-only lookup is a row whose key occurs nowhere on the right and which is in no matched pair |
| Reconcile.RightOnlyRowsHaveNoPartner | utils.py:63-78 | each row of the right-only lookup is a row whose key occurs nowhere on the left and which is in no matched pair |
| Reconcile.OnlyInRowsHaveNoPartner | utils.py:62-80 | without aggregation, every only-in row of a run is an input row whose composite key has no counterpart on the other side |
| Preset.LastWriter | app.py:29-46 | finds the last row that writes a column into a given dictionary |
| Preset.EntriesUpTo | app.py:29-46 | no contract of its own; see `Preset.EntriesValid` and `Preset.ImportedEntries` |
| Preset.AggColumnsUpTo | app.py:42-44 | no contract of its own; see `Preset.AggColumnsAreFlagged`, `Preset.FlaggedAreAggColumns` and `Preset.AggColumnsInRowOrder` |
| Preset.EntriesValid | app.py:24-46 | every dictionary the import builds lists each of its keys once |
| Preset.ImportedEntries | app.py:29-46 | after `n` rows, a dictionary holds a column exactly when one of those rows wrote it there, with the value of the last such row |
| Preset.AggColumnsAreFlagged | app.py:42-44 | every aggregation column comes from a row flagged for aggregation in a sheet with both aggregation columns |
| Preset.FlaggedAreAggColumns | app.py:42-44 | the column of every flagged row is an aggregation column |
| Preset.FlaggedRows | app.py:42-44 | the flagged rows, in row order |
| Preset.AggColumnsInRowOrder | app.py:42-44 | the aggregation columns are the columns of the flagged rows, one per flagged row, in row order |
| Preset.ImportPreset | app.py:24-54 | the imported mappings, key columns and functions list each key once |
| Preset.LastRowWins | app.py:29-46 | a dictionary holds a column exactly when some row writes it, with the value of the last such row |
| Preset.MappingOutlastsWriter | app.py:35-46 | the last row writing a column into any dictionary is no later than the last row mapping it |
| Preset.EntriesAreMapped | app.py:32-46 | every key column and every column with a function is also a mapped column |
| Preset.AggregationSettings | app.py:42-53 | a sheet without the aggregation columns gives no aggregation settings; aggregation is on exactly when some row names a function |
| Preset.ExportPreset | app.py:622-631 | export writes one row per mapping and no aggregation columns |
| Preset.ExportedRow | app.py:625-631 | row i of the export is the i-th mapping, flagged as a key exactly when its column is a key column |
| Preset.ExportedWriter | app.py:625-631 | in an exported sheet, a column is written only by the row at its position in the mappings |
| Preset.ImportedMappingOrder | app.py:29-35 | importing the first `n` exported rows lists the first `n` mapped columns in order |
| Preset.RoundTripEntry | app.py:29-39 | after export and import, a column is mapped exactly when it was, to the same target, and it is a key exactly when it was a mapped key, keyed to its mapped target |
| Preset.RoundTripMappings | app.py:29-35 | the column mappings survive export and import unchanged, order included |
| Preset.ExportImportRoundTrip | app.py:24-54 | export then import gives back the same mappings; the key columns come back as the mapping restricted to the key names; aggregation settings come back empty and off |
| Preset.RoundTripKeepsConsistentKeys | app.py:24-54 | when every key column is mapped to its key target, export then import gives back the key columns exactly |

## Left out

- The Streamlit interface, session state, widgets, Excel/CSV/ZIP export and all file I/O. These include reading and writing the preset CSV files. A preset sheet is modelled as a sequence of row records.
- Pandas dtypes: float cells and their stringification (`10.0` against `10`), dates, and the upcast of integer columns to float by the outer merge. Numbers are `Int` only.
- `Reconcile.Assemble`: with aggregation, the only-in results are original rows picked by group position. The model numbers groups in first-occurrence order (`Aggregate.GroupReps`), while `groupby` sorts them by grouping tuple. Which original rows come back therefore differs from pandas: with groups "b" then "a" in table 1 and only "b" in table 2, pandas returns original row 0 and the model returns original row 1. The model only promises that these positions are in range (`Reconcile.PreparedIsConsistent`).
- `Matcher.Unmatched`: the `left_only` and `right_only` positions are listed in ascending position order. The outer merge sorts by key, so pandas lists them in key order: keys `["b","a","b"]` against `["c"]` give rows 1, 0, 2 in pandas and 0, 1, 2 in the model. Which rows are listed, and how many, is the same.
- `Aggregate.AggregateTable`: the reductions (sum, mean, count, min, max) are an uninterpreted `Reducer` parameter, because `mean` works on floating point. A reduction that raises in pandas is modelled only as the reducer returning an error. Which inputs make pandas raise is not modelled, for example `mean` over text, `sum` over mixed numbers and text, or an unknown function name from a preset. Groups are listed in first-occurrence order, whereas `groupby` sorts them by grouping tuple.
- `Aggregate.AggregateTable`: `agg` with an empty dictionary is taken to fail, as it does in pandas. The exact error type is not modelled.
- `Aggregate.AggregateTable`: an empty grouping list on a table without rows does not fail in pandas. The model returns an empty table with the reduced columns; the exact columns pandas gives that empty frame are not modelled.
- `Matcher.BothPairsSpec`: the `both` rows are listed left row by left row. `pd.merge(how='outer')` orders the rows by key instead. The order within a key and the set of rows are the same. The order is not part of the engine's promise.
- `Reconcile.Prepare`: the composite key is a new Series with a fresh 0-based index, assigned to frames that keep their own index (utils.py:48-49). The model aligns keys with rows by position. That is right for the default index the engine's callers pass. A frame with any other index would get NaN keys in pandas.
- Column-name collisions with the engine's own columns are not modelled, because merged names are a datatype and such collisions cannot arise in the model:
  - a table-1 column literally named `x_file1`, clashing with a suffixed name;
  - a mapped column named `_composite_key`;
  - an input column named `_merge`, for which `pd.merge(..., indicator=True)` raises a `ValueError` (utils.py:54-58);
  - an input column named `_rec_id_1` or `_rec_id_2`, which the record ids overwrite (utils.py:40-41).
- `Preset.ImportPreset`: preset name cells are strings, and a blank `file1_column`/`file2_column` (NaN in pandas) is not modelled. A sheet that lacks `file1_column`, `file2_column` or `is_key_column` raises a `KeyError` in the source; it is not modelled either.
- `Matcher.JoinCartesian`: the count is stated per key over the `both` rows. The total number of rows is not summed over keys.
