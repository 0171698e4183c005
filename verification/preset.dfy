/** Mapping presets: the rows of a preset sheet folded into mappings, key columns and
    aggregation settings (import_preset_from_csv), and the sheet written from the current
    mappings and key columns (export_preset_to_csv). */
module Preset {
  import opened Cells
  import opened Dicts
  import opened Seqs

  datatype Option<T> = None | Some(value: T)

  /** One row of a preset sheet. The flags are raw cells, read with Python truthiness; a
      blank aggregation function is `None`. */
  datatype PresetRow = PresetRow(
    file1Column: string,
    file2Column: string,
    isKeyColumn: Cell,
    useForAggregation: Cell,
    aggregationFunction: Option<string>)

  /** A preset sheet: whether it has both the `use_for_aggregation` and the
      `aggregation_function` columns, and its rows in file order. */
  datatype PresetSheet = PresetSheet(hasAggregationColumns: bool, rows: seq<PresetRow>)

  datatype Preset = Preset(
    columnMappings: Dict<string>,
    keyColumns: Dict<string>,
    aggColumns: seq<string>,
    aggFunctions: Dict<string>,
    useAggregation: bool)

  /** Python truthiness of a cell; NaN is truthy. */
  predicate Truthy(c: Cell) {
    match c
    case Null => true
    case Int(i) => i != 0
    case Text(s) => |s| > 0
    case Bool(b) => b
  }

  /** The three dictionaries a preset row can write to. */
  datatype Field = Mapping | Key | Function

  /** Whether `row` writes an entry into dictionary `f`. */
  predicate Writes(sheet: PresetSheet, row: PresetRow, f: Field) {
    match f
    case Mapping => true
    case Key => Truthy(row.isKeyColumn)
    case Function => sheet.hasAggregationColumns && row.aggregationFunction.Some?
  }

  /** The value `row` writes into dictionary `f`. */
  function Written(row: PresetRow, f: Field): string {
    match f
    case Mapping => row.file2Column
    case Key => row.file2Column
    case Function => if row.aggregationFunction.Some? then row.aggregationFunction.value else ""
  }

  function Entries(p: Preset, f: Field): Dict<string> {
    match f
    case Mapping => p.columnMappings
    case Key => p.keyColumns
    case Function => p.aggFunctions
  }

  /** The last of the first `n` rows that writes column `k` into dictionary `f`, or -1. */
  function LastWriter(sheet: PresetSheet, f: Field, k: string, n: nat): (r: int)
    requires n <= |sheet.rows|
    ensures -1 <= r < n
    ensures r >= 0 ==> sheet.rows[r].file1Column == k && Writes(sheet, sheet.rows[r], f)
    ensures r >= 0 ==> forall i :: r < i < n ==> !(sheet.rows[i].file1Column == k && Writes(sheet, sheet.rows[i], f))
    ensures r < 0 ==> forall i :: 0 <= i < n ==> !(sheet.rows[i].file1Column == k && Writes(sheet, sheet.rows[i], f))
    decreases n
  {
    if n == 0 then -1
    else if sheet.rows[n - 1].file1Column == k && Writes(sheet, sheet.rows[n - 1], f) then n - 1
    else LastWriter(sheet, f, k, n - 1)
  }

  /** Row `i` names a column to group by. */
  predicate FlaggedForAggregation(sheet: PresetSheet, i: nat)
    requires i < |sheet.rows|
  {
    sheet.hasAggregationColumns && Truthy(sheet.rows[i].useForAggregation)
  }

  /** Dictionary `f` after the first `n` rows of the sheet. The import loop writes each
      dictionary independently of the others, so each is a fold of its own. */
  function EntriesUpTo(sheet: PresetSheet, f: Field, n: nat): Dict<string>
    requires n <= |sheet.rows|
    decreases n
  {
    if n == 0 then Empty()
    else
      var prev := EntriesUpTo(sheet, f, n - 1);
      var row := sheet.rows[n - 1];
      if Writes(sheet, row, f) then Put(prev, row.file1Column, Written(row, f)) else prev
  }

  /** The columns to group by after the first `n` rows, in row order. */
  function AggColumnsUpTo(sheet: PresetSheet, n: nat): seq<string>
    requires n <= |sheet.rows|
    decreases n
  {
    if n == 0 then []
    else
      var prev := AggColumnsUpTo(sheet, n - 1);
      if FlaggedForAggregation(sheet, n - 1) then prev + [sheet.rows[n - 1].file1Column] else prev
  }

  /** Every dictionary of the import lists each of its keys once. */
  lemma {:induction false} EntriesValid(sheet: PresetSheet, f: Field, n: nat)
    requires n <= |sheet.rows|
    ensures Valid(EntriesUpTo(sheet, f, n))
    decreases n
  {
    if n > 0 {
      EntriesValid(sheet, f, n - 1);
    }
  }

  /** After `n` rows, dictionary `f` holds a column exactly when one of those rows wrote
      it there, with the value of the last such row. */
  lemma {:induction false} ImportedEntries(sheet: PresetSheet, f: Field, k: string, n: nat)
    requires n <= |sheet.rows|
    ensures var d := EntriesUpTo(sheet, f, n);
      && (k in d.m <==> LastWriter(sheet, f, k, n) >= 0)
      && (k in d.m ==> d.m[k] == Written(sheet.rows[LastWriter(sheet, f, k, n)], f))
    decreases n
  {
    if n > 0 {
      ImportedEntries(sheet, f, k, n - 1);
    }
  }

  /** After `n` rows, every aggregation column comes from a row flagged for aggregation. */
  lemma {:induction false} AggColumnsAreFlagged(sheet: PresetSheet, k: string, n: nat)
    requires n <= |sheet.rows|
    ensures k in AggColumnsUpTo(sheet, n) ==>
      exists i: nat :: i < n && FlaggedForAggregation(sheet, i) && sheet.rows[i].file1Column == k
    decreases n
  {
    if n > 0 {
      AggColumnsAreFlagged(sheet, k, n - 1);
    }
  }

  /** After `n` rows, the column of every row among them flagged for aggregation is an
      aggregation column. */
  lemma {:induction false} FlaggedAreAggColumns(sheet: PresetSheet, i: nat, n: nat)
    requires i < n <= |sheet.rows|
    requires FlaggedForAggregation(sheet, i)
    ensures sheet.rows[i].file1Column in AggColumnsUpTo(sheet, n)
    decreases n
  {
    if i < n - 1 {
      FlaggedAreAggColumns(sheet, i, n - 1);
      var prev := AggColumnsUpTo(sheet, n - 1);
      assert sheet.rows[i].file1Column in prev;
    }
  }

  /** Per row, whether it is flagged for aggregation. */
  function AggregationFlags(sheet: PresetSheet): (r: seq<bool>)
    ensures |r| == |sheet.rows|
    ensures forall i :: 0 <= i < |sheet.rows| ==> r[i] == FlaggedForAggregation(sheet, i)
  {
    seq(|sheet.rows|, i requires 0 <= i < |sheet.rows| => FlaggedForAggregation(sheet, i))
  }

  /** The rows among the first `n` that are flagged for aggregation, in row order. */
  function FlaggedRows(sheet: PresetSheet, n: nat): (r: seq<nat>)
    requires n <= |sheet.rows|
    ensures forall i: nat :: i in r <==> i < n && FlaggedForAggregation(sheet, i)
    ensures forall a :: 0 <= a < |r| ==> r[a] < n
    ensures Ascending(r)
  {
    Positions(AggregationFlags(sheet), n)
  }

  /** The aggregation columns are the columns of the flagged rows, one per flagged row,
      in row order. */
  lemma {:induction false} AggColumnsInRowOrder(sheet: PresetSheet, n: nat)
    requires n <= |sheet.rows|
    ensures var rows := FlaggedRows(sheet, n);
      var cols := AggColumnsUpTo(sheet, n);
      && |cols| == |rows|
      && forall a :: 0 <= a < |rows| ==> cols[a] == sheet.rows[rows[a]].file1Column
    decreases n
  {
    if n > 0 {
      AggColumnsInRowOrder(sheet, n - 1);
    }
  }

  /** import_preset_from_csv, on the rows of the parsed sheet. */
  function ImportPreset(sheet: PresetSheet): (r: Preset)
    ensures Valid(r.columnMappings) && Valid(r.keyColumns) && Valid(r.aggFunctions)
  {
    var n := |sheet.rows|;
    EntriesValid(sheet, Mapping, n);
    EntriesValid(sheet, Key, n);
    EntriesValid(sheet, Function, n);
    var funcs := EntriesUpTo(sheet, Function, n);
    Preset(EntriesUpTo(sheet, Mapping, n), EntriesUpTo(sheet, Key, n), AggColumnsUpTo(sheet, n),
      funcs, |funcs.keys| > 0)
  }

  /** The dictionaries of the import are the folds over all rows. */
  lemma ImportedDictionary(sheet: PresetSheet, f: Field)
    ensures Entries(ImportPreset(sheet), f) == EntriesUpTo(sheet, f, |sheet.rows|)
  {
  }

  /** A later row for the same file-1 column overrides an earlier one: each dictionary
      holds the value of the last row that writes that column into it. */
  lemma LastRowWins(sheet: PresetSheet, f: Field, k: string)
    ensures var d := Entries(ImportPreset(sheet), f);
      && (k in d.m <==> exists i :: 0 <= i < |sheet.rows| && sheet.rows[i].file1Column == k && Writes(sheet, sheet.rows[i], f))
      && (k in d.m ==> exists i :: (0 <= i < |sheet.rows| && sheet.rows[i].file1Column == k && Writes(sheet, sheet.rows[i], f)
            && d.m[k] == Written(sheet.rows[i], f)
            && forall j :: i < j < |sheet.rows| ==> !(sheet.rows[j].file1Column == k && Writes(sheet, sheet.rows[j], f))))
  {
    ImportedDictionary(sheet, f);
    ImportedEntries(sheet, f, k, |sheet.rows|);
    var n := LastWriter(sheet, f, k, |sheet.rows|);
    if n >= 0 {
      assert sheet.rows[n].file1Column == k && Writes(sheet, sheet.rows[n], f);
    }
  }

  /** A column that a later row writes to dictionary `f` is also written by a later row to
      the column mappings, which every row writes. */
  lemma {:induction false} MappingOutlastsWriter(sheet: PresetSheet, f: Field, k: string, n: nat)
    requires n <= |sheet.rows|
    ensures LastWriter(sheet, f, k, n) <= LastWriter(sheet, Mapping, k, n)
    decreases n
  {
    if n > 0 {
      MappingOutlastsWriter(sheet, f, k, n - 1);
    }
  }

  /** Every key column and every column with an aggregation function is also mapped. */
  lemma {:induction false} EntriesAreMapped(sheet: PresetSheet, k: string)
    ensures var p := ImportPreset(sheet);
      (k in p.keyColumns.m || k in p.aggFunctions.m) ==> k in p.columnMappings.m
  {
    var n := |sheet.rows|;
    MappingOutlastsWriter(sheet, Key, k, n);
    MappingOutlastsWriter(sheet, Function, k, n);
    ImportedEntries(sheet, Key, k, n);
    ImportedEntries(sheet, Function, k, n);
    ImportedEntries(sheet, Mapping, k, n);
  }

  /** A sheet without the two aggregation columns yields no aggregation settings, and
      aggregation is switched on exactly when some row names a function. */
  lemma {:induction false} AggregationSettings(sheet: PresetSheet)
    ensures var p := ImportPreset(sheet);
      && (!sheet.hasAggregationColumns ==> p.aggColumns == [] && p.aggFunctions.keys == [] && !p.useAggregation)
      && (p.useAggregation <==> (sheet.hasAggregationColumns
            && exists i :: 0 <= i < |sheet.rows| && sheet.rows[i].aggregationFunction.Some?))
  {
    var p := ImportPreset(sheet);
    var n := |sheet.rows|;
    if p.useAggregation {
      var k := p.aggFunctions.keys[0];
      assert k in p.aggFunctions.m;
      ImportedEntries(sheet, Function, k, n);
    }
    if sheet.hasAggregationColumns && exists i :: 0 <= i < n && sheet.rows[i].aggregationFunction.Some? {
      var i :| 0 <= i < n && sheet.rows[i].aggregationFunction.Some?;
      var k := sheet.rows[i].file1Column;
      ImportedEntries(sheet, Function, k, n);
      assert LastWriter(sheet, Function, k, n) >= 0;
      assert k in p.aggFunctions.keys;
    }
    if !sheet.hasAggregationColumns {
      if |p.aggColumns| > 0 {
        AggColumnsAreFlagged(sheet, p.aggColumns[0], n);
        assert false;
      }
    }
  }

  /** export_preset_to_csv: one row per mapping in mapping order, flagged when the file-1
      column is a key column, and without the aggregation columns. */
  function ExportPreset(mappings: Dict<string>, keys: Dict<string>): (r: PresetSheet)
    requires Valid(mappings)
    ensures !r.hasAggregationColumns && |r.rows| == |mappings.keys|
  {
    PresetSheet(false, seq(|mappings.keys|, i requires 0 <= i < |mappings.keys| =>
      PresetRow(mappings.keys[i], mappings.m[mappings.keys[i]], Bool(mappings.keys[i] in keys.m), Null, None)))
  }

  /** Importing the first `n` exported rows lists the first `n` mapped columns in order. */
  lemma {:induction false} ImportedMappingOrder(mappings: Dict<string>, keys: Dict<string>, n: nat)
    requires Valid(mappings) && n <= |mappings.keys|
    ensures EntriesUpTo(ExportPreset(mappings, keys), Mapping, n).keys == mappings.keys[..n]
    decreases n
  {
    if n > 0 {
      ImportedMappingOrder(mappings, keys, n - 1);
      var sheet := ExportPreset(mappings, keys);
      var prev := EntriesUpTo(sheet, Mapping, n - 1);
      var k := mappings.keys[n - 1];
      ExportedRow(mappings, keys, n - 1);
      assert k !in prev.m by {
        EntriesValid(sheet, Mapping, n - 1);
        DistinctLast(mappings.keys, n);
      }
      MappingStep(sheet, n);
      TakeSnoc(mappings.keys, n);
    }
  }

  /** Every row writes its column mapping. */
  lemma MappingStep(sheet: PresetSheet, n: nat)
    requires 0 < n <= |sheet.rows|
    ensures var row := sheet.rows[n - 1];
      EntriesUpTo(sheet, Mapping, n) == Put(EntriesUpTo(sheet, Mapping, n - 1), row.file1Column, row.file2Column)
  {
  }

  /** Row `i` of an exported sheet is the `i`-th mapping. */
  lemma ExportedRow(mappings: Dict<string>, keys: Dict<string>, i: nat)
    requires Valid(mappings) && i < |mappings.keys|
    ensures var k := mappings.keys[i];
      ExportPreset(mappings, keys).rows[i] == PresetRow(k, mappings.m[k], Bool(k in keys.m), Null, None)
  {
  }

  /** In an exported sheet, a column is written to dictionary `f` by the row at its
      position in the mappings, and by no other row. */
  lemma ExportedWriter(mappings: Dict<string>, keys: Dict<string>, f: Field, k: string)
    requires Valid(mappings)
    ensures var sheet := ExportPreset(mappings, keys);
      var w := LastWriter(sheet, f, k, |sheet.rows|);
      && (w >= 0 ==> mappings.keys[w] == k && Written(sheet.rows[w], f) == mappings.m[k])
      && (k in mappings.m && Writes(sheet, PresetRow(k, mappings.m[k], Bool(k in keys.m), Null, None), f) ==> w >= 0)
  {
    var sheet := ExportPreset(mappings, keys);
    if k in mappings.m {
      var i :| 0 <= i < |mappings.keys| && mappings.keys[i] == k;
      assert sheet.rows[i] == PresetRow(k, mappings.m[k], Bool(k in keys.m), Null, None);
    }
  }

  /** One column through the round trip: it is mapped afterwards exactly when it was,
      to the same file-2 column, and it is a key column afterwards exactly when it was a
      mapped key column, keyed to its mapped file-2 column. */
  lemma {:induction false} RoundTripEntry(mappings: Dict<string>, keys: Dict<string>, k: string)
    requires Valid(mappings)
    ensures var p := ImportPreset(ExportPreset(mappings, keys));
      && (k in p.columnMappings.m <==> k in mappings.m)
      && (k in p.columnMappings.m ==> p.columnMappings.m[k] == mappings.m[k])
      && (k in p.keyColumns.m <==> k in mappings.m && k in keys.m)
      && (k in p.keyColumns.m ==> p.keyColumns.m[k] == mappings.m[k])
  {
    var sheet := ExportPreset(mappings, keys);
    var n := |sheet.rows|;
    ImportedEntries(sheet, Mapping, k, n);
    ImportedEntries(sheet, Key, k, n);
    ExportedWriter(mappings, keys, Mapping, k);
    ExportedWriter(mappings, keys, Key, k);
    var w := LastWriter(sheet, Key, k, n);
    if w >= 0 {
      assert sheet.rows[w].isKeyColumn == Bool(k in keys.m);
    }
  }

  /** The column mappings survive the round trip unchanged, order included. */
  lemma {:induction false} RoundTripMappings(mappings: Dict<string>, keys: Dict<string>)
    requires Valid(mappings)
    ensures ImportPreset(ExportPreset(mappings, keys)).columnMappings == mappings
  {
    var sheet := ExportPreset(mappings, keys);
    var n := |sheet.rows|;
    var d := ImportPreset(sheet).columnMappings;
    ImportedMappingOrder(mappings, keys, n);
    assert mappings.keys[..n] == mappings.keys;
    forall k
      ensures k in d.m <==> k in mappings.m
      ensures k in d.m ==> d.m[k] == mappings.m[k]
    {
      RoundTripEntry(mappings, keys, k);
    }
    assert d.m == mappings.m;
  }

  /** Exporting the mappings and importing the sheet gives back the same mappings in the
      same order; the key columns come back as the mapped columns that were keys, carrying
      their mapped file-2 column; aggregation settings are not carried. */
  lemma {:induction false} ExportImportRoundTrip(mappings: Dict<string>, keys: Dict<string>)
    requires Valid(mappings)
    ensures var p := ImportPreset(ExportPreset(mappings, keys));
      && p.columnMappings == mappings
      && (forall k :: k in p.keyColumns.m <==> k in mappings.m && k in keys.m)
      && (forall k :: k in p.keyColumns.m ==> p.keyColumns.m[k] == mappings.m[k])
      && p.aggColumns == [] && p.aggFunctions.keys == [] && !p.useAggregation
  {
    var sheet := ExportPreset(mappings, keys);
    var p := ImportPreset(sheet);
    RoundTripMappings(mappings, keys);
    AggregationSettings(sheet);
    forall k
      ensures k in p.keyColumns.m <==> k in mappings.m && k in keys.m
      ensures k in p.keyColumns.m ==> p.keyColumns.m[k] == mappings.m[k]
    {
      RoundTripEntry(mappings, keys, k);
    }
  }

  /** When every key column is mapped to the same file-2 column it is keyed to, the round
      trip gives back the key columns too. */
  lemma {:induction false} RoundTripKeepsConsistentKeys(mappings: Dict<string>, keys: Dict<string>)
    requires Valid(mappings) && Valid(keys)
    requires forall k :: k in keys.m ==> k in mappings.m && mappings.m[k] == keys.m[k]
    ensures ImportPreset(ExportPreset(mappings, keys)).keyColumns.m == keys.m
  {
    ExportImportRoundTrip(mappings, keys);
  }
}
