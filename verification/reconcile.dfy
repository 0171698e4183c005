/** perform_reconciliation: aggregation, projection of table 2 onto table-1 names,
    composite keys, the outer join, mismatch detection, and the result bundle. */
module Reconcile {
  import opened Cells
  import opened Seqs
  import opened Dicts
  import opened Results
  import opened CompositeKey
  import opened Matcher
  import opened Mismatch
  import opened Aggregate

  const RecId1 := "_rec_id_1"
  const RecId2 := "_rec_id_2"
  const MergeCol := "_merge"

  /** `df['_rec_id_1'] = range(len(df))`: every row records its 0-based position. */
  function WithRecordIds(t: Table<string>): (r: Table<string>)
    ensures |r.rows| == |t.rows|
    ensures forall c :: c in r.columns <==> c in t.columns || c == RecId1
    ensures forall i :: 0 <= i < |t.rows| ==> r.rows[i] == t.rows[i][RecId1 := Int(i)]
  {
    Table(Append(t.columns, RecId1), seq(|t.rows|, i requires 0 <= i < |t.rows| => t.rows[i][RecId1 := Int(i)]))
  }

  /** The table-1 names of the mapped columns whose target exists in table 2, in mapping order. */
  function MappedColumns(mapping: Dict<string>, cols2: seq<string>): (r: seq<string>)
    requires Valid(mapping)
    ensures forall c :: c in r <==> c in mapping.m && mapping.m[c] in cols2
  {
    Filter(mapping, c => c in mapping.m && mapping.m[c] in cols2).keys
  }

  /** One row of df2_mapped: the mapped cells under their table-1 names, plus the row's position. */
  function ShadowRow(row: map<string, Cell>, mapping: Dict<string>, cols: seq<string>, j: nat): (r: map<string, Cell>)
    requires forall c :: c in cols ==> c in mapping.m
  {
    (map c | c in cols :: Lookup(row, mapping.m[c]))[RecId2 := Int(j)]
  }

  /** df2_mapped: table 2 seen through the mapping. Only mapped columns whose target exists
      survive, renamed to their table-1 names; unmapped columns play no further part. */
  function ShadowTable(t2: Table<string>, mapping: Dict<string>): (r: Table<string>)
    requires Valid(mapping)
    ensures |r.rows| == |t2.rows|
    ensures forall c :: c in r.columns <==> (c in mapping.m && mapping.m[c] in t2.columns) || c == RecId2
    ensures forall j, c :: 0 <= j < |t2.rows| && c in mapping.m && mapping.m[c] in t2.columns && c != RecId2 ==>
      Lookup(r.rows[j], c) == Lookup(t2.rows[j], mapping.m[c])
    ensures forall j :: 0 <= j < |t2.rows| ==> Lookup(r.rows[j], RecId2) == Int(j)
  {
    var cols := MappedColumns(mapping, t2.columns);
    Table(Append(cols, RecId2), seq(|t2.rows|, j requires 0 <= j < |t2.rows| => ShadowRow(t2.rows[j], mapping, cols, j)))
  }

  /** The merged name of a column of one side: suffixed when both sides have it. */
  function Renamed(cs: seq<string>, overlap: set<string>, left: bool): (r: seq<Col>)
    ensures forall c :: File1(c) in r <==> left && c in cs && c in overlap
    ensures forall c :: File2(c) in r <==> !left && c in cs && c in overlap
    ensures forall c :: Plain(c) in r <==> c in cs && c !in overlap
    ensures forall c :: Diff(c) !in r
    decreases |cs|
  {
    if |cs| == 0 then []
    else
      var c := cs[|cs| - 1];
      assert cs == cs[..|cs| - 1] + [c];
      Renamed(cs[..|cs| - 1], overlap, left)
        + [if c !in overlap then Plain(c) else if left then File1(c) else File2(c)]
  }

  /** The shape of the merge: the left columns (the join key last), the right columns other
      than the join key, and the columns present on both sides. */
  datatype Layout = Layout(left: seq<string>, right: seq<string>, overlap: set<string>)

  function MergeLayout(t1c: Table<string>, t2m: Table<string>): (r: Layout)
    ensures forall c :: c in r.left <==> c in t1c.columns || c == KeyCol
    ensures forall c :: c in r.right <==> c in t2m.columns && c != KeyCol
    ensures forall c :: c in r.overlap <==> c in t1c.columns && c in t2m.columns && c != KeyCol
  {
    var left := Append(t1c.columns, KeyCol);
    var right := Without(t2m.columns, KeyCol);
    Layout(left, right, set c | c in left && c in right)
  }

  /** The merged columns: `pd.merge(..., suffixes=('_file1', '_file2'), indicator=True)`. */
  function MergedColumns(lay: Layout): seq<Col> {
    Renamed(lay.left, lay.overlap, true) + Renamed(lay.right, lay.overlap, false) + [Plain(MergeCol)]
  }

  /** A cell of the merged row of a matched pair. */
  function MergedCell(t1c: Table<string>, t2m: Table<string>, lay: Layout, x: Match, col: Col): Cell
    requires x.left < |t1c.rows| && x.right < |t2m.rows|
  {
    match col
    case File1(c) => LeftCell(t1c, x, c)
    case File2(c) => Lookup(t2m.rows[x.right], c)
    case Plain(c) =>
      if c in lay.left then LeftCell(t1c, x, c)
      else if c in lay.right then Lookup(t2m.rows[x.right], c)
      else Text("both")
    case Diff(_) => Null
  }

  function LeftCell(t1c: Table<string>, x: Match, c: string): Cell
    requires x.left < |t1c.rows|
  {
    if c == KeyCol then Text(x.key) else Lookup(t1c.rows[x.left], c)
  }

  /** The `both` rows of the merge, one per matched pair. */
  function MatchedTable(t1c: Table<string>, t2m: Table<string>, both: seq<Match>): (r: Table<Col>)
    requires forall x :: x in both ==> x.left < |t1c.rows| && x.right < |t2m.rows|
    ensures |r.rows| == |both|
  {
    var lay := MergeLayout(t1c, t2m);
    var cols := MergedColumns(lay);
    Table(cols, seq(|both|, n requires 0 <= n < |both| =>
      map col | col in cols :: MergedCell(t1c, t2m, lay, both[n], col)))
  }

  /** Pair (i, j) disagrees on some mapped field: a column of table 1, not internal, whose
      mapped target is a column of table 2, with different strings on the two sides. */
  predicate PairDiffers(t1: Table<string>, t2: Table<string>, mapping: Dict<string>, i: nat, j: nat)
    requires i < |t1.rows| && j < |t2.rows|
  {
    exists c :: c in mapping.m && !Internal(c) && c in t1.columns && mapping.m[c] in t2.columns
      && Str(Lookup(t1.rows[i], c)) != Str(Lookup(t2.rows[j], mapping.m[c]))
  }

  /** A column gets the `_file1` and `_file2` names exactly when both sides have it and
      it is not the join key. */
  lemma SuffixedIffShared(t1c: Table<string>, t2m: Table<string>, c: string)
    ensures var cols := MergedColumns(MergeLayout(t1c, t2m));
      && (File1(c) in cols <==> c in t1c.columns && c in t2m.columns && c != KeyCol)
      && (File2(c) in cols <==> c in t1c.columns && c in t2m.columns && c != KeyCol)
  {
  }

  /** The columns the detector compares on the merged table are exactly the mapped,
      non-internal table-1 columns whose target exists in table 2. */
  lemma {:induction false} ComparedAreMappedPresent(t1: Table<string>, t2: Table<string>, mapping: Dict<string>, both: seq<Match>)
    requires Valid(mapping)
    requires forall x :: x in both ==> x.left < |t1.rows| && x.right < |t2.rows|
    ensures var m := MatchedTable(WithRecordIds(t1), ShadowTable(t2, mapping), both);
      forall c :: c in ComparedColumns(m.columns, mapping.keys) <==>
        c in mapping.m && !Internal(c) && c in t1.columns && mapping.m[c] in t2.columns
  {
    var t1c, t2m := WithRecordIds(t1), ShadowTable(t2, mapping);
    var m := MatchedTable(t1c, t2m, both);
    assert m.columns == MergedColumns(MergeLayout(t1c, t2m));
    assert Internal(RecId1) && Internal(RecId2) && Internal(KeyCol);
    forall c
      ensures c in ComparedColumns(m.columns, mapping.keys) <==>
        c in mapping.m && !Internal(c) && c in t1.columns && mapping.m[c] in t2.columns
    {
      SuffixedIffShared(t1c, t2m, c);
    }
  }

  /** A cell of a merged matched row is the merge cell of its pair. */
  lemma MatchedRowCell(t1c: Table<string>, t2m: Table<string>, both: seq<Match>, n: nat, col: Col)
    requires forall x :: x in both ==> x.left < |t1c.rows| && x.right < |t2m.rows|
    requires n < |both| && col in MergedColumns(MergeLayout(t1c, t2m))
    ensures both[n] in both
    ensures Lookup(MatchedTable(t1c, t2m, both).rows[n], col) == MergedCell(t1c, t2m, MergeLayout(t1c, t2m), both[n], col)
  {
    assert both[n] in both;
  }

  /** A compared column of table 1 is present on both sides of the merge, so it gets
      both suffixed names. */
  lemma ComparedIsSuffixed(t1: Table<string>, t2: Table<string>, mapping: Dict<string>, c: string)
    requires Valid(mapping)
    requires c in mapping.m && !Internal(c) && c in t1.columns && mapping.m[c] in t2.columns
    ensures var cols := MergedColumns(MergeLayout(WithRecordIds(t1), ShadowTable(t2, mapping)));
      File1(c) in cols && File2(c) in cols
  {
    var lay := MergeLayout(WithRecordIds(t1), ShadowTable(t2, mapping));
    assert Internal(RecId1) && Internal(RecId2) && Internal(KeyCol);
    assert c in lay.overlap;
  }

  /** The cell of a compared column in a row of df1 and of df2_mapped is the source cell. */
  lemma ShadowCells(t1: Table<string>, t2: Table<string>, mapping: Dict<string>, i: nat, j: nat, c: string)
    requires Valid(mapping) && i < |t1.rows| && j < |t2.rows|
    requires c in mapping.m && !Internal(c) && mapping.m[c] in t2.columns
    ensures Lookup(WithRecordIds(t1).rows[i], c) == Lookup(t1.rows[i], c)
    ensures Lookup(ShadowTable(t2, mapping).rows[j], c) == Lookup(t2.rows[j], mapping.m[c])
  {
    assert Internal(RecId1) && Internal(RecId2);
  }

  /** The `_file1` / `_file2` cells of a merged matched row are the cells of the two
      merged rows of its pair. */
  lemma MergedPairCells(t1c: Table<string>, t2m: Table<string>, both: seq<Match>, n: nat, c: string)
    requires forall x :: x in both ==> x.left < |t1c.rows| && x.right < |t2m.rows|
    requires n < |both| && c != KeyCol
    requires File1(c) in MergedColumns(MergeLayout(t1c, t2m)) && File2(c) in MergedColumns(MergeLayout(t1c, t2m))
    ensures both[n].left < |t1c.rows| && both[n].right < |t2m.rows|
    ensures Lookup(MatchedTable(t1c, t2m, both).rows[n], File1(c)) == Lookup(t1c.rows[both[n].left], c)
    ensures Lookup(MatchedTable(t1c, t2m, both).rows[n], File2(c)) == Lookup(t2m.rows[both[n].right], c)
  {
    MatchedRowCell(t1c, t2m, both, n, File1(c));
    MatchedRowCell(t1c, t2m, both, n, File2(c));
  }

  /** On a merged matched row, the `_file1` / `_file2` cells of a compared column are the
      table-1 cell and the mapped table-2 cell of the pair. */
  lemma {:induction false} MergedCellsAreSourceCells(t1: Table<string>, t2: Table<string>, mapping: Dict<string>, both: seq<Match>, n: nat, c: string)
    requires Valid(mapping)
    requires forall x :: x in both ==> x.left < |t1.rows| && x.right < |t2.rows|
    requires n < |both|
    requires c in mapping.m && !Internal(c) && c in t1.columns && mapping.m[c] in t2.columns
    ensures var m := MatchedTable(WithRecordIds(t1), ShadowTable(t2, mapping), both);
      && Lookup(m.rows[n], File1(c)) == Lookup(t1.rows[both[n].left], c)
      && Lookup(m.rows[n], File2(c)) == Lookup(t2.rows[both[n].right], mapping.m[c])
  {
    var t1c, t2m := WithRecordIds(t1), ShadowTable(t2, mapping);
    var x := both[n];
    assert x in both;
    ComparedIsSuffixed(t1, t2, mapping, c);
    assert c != KeyCol by {
      assert Internal(KeyCol);
    }
    MergedPairCells(t1c, t2m, both, n, c);
    ShadowCells(t1, t2, mapping, x.left, x.right, c);
  }

  /** A matched pair is flagged by the detector exactly when it disagrees on some mapped
      field under null-as-"" string comparison. */
  lemma {:induction false} FlaggedIffPairDiffers(t1: Table<string>, t2: Table<string>, mapping: Dict<string>, both: seq<Match>, n: nat)
    requires Valid(mapping)
    requires forall x :: x in both ==> x.left < |t1.rows| && x.right < |t2.rows|
    requires n < |both|
    ensures var m := MatchedTable(WithRecordIds(t1), ShadowTable(t2, mapping), both);
      var cmp := ComparedColumns(m.columns, mapping.keys);
      HasMismatch(m.rows[n], cmp) <==> PairDiffers(t1, t2, mapping, both[n].left, both[n].right)
  {
    var m := MatchedTable(WithRecordIds(t1), ShadowTable(t2, mapping), both);
    var cmp := ComparedColumns(m.columns, mapping.keys);
    assert both[n] in both;
    ComparedAreMappedPresent(t1, t2, mapping, both);
    if HasMismatch(m.rows[n], cmp) {
      var c :| c in cmp && Differs(m.rows[n], c);
      MergedCellsAreSourceCells(t1, t2, mapping, both, n, c);
    }
    if PairDiffers(t1, t2, mapping, both[n].left, both[n].right) {
      var c :| c in mapping.m && !Internal(c) && c in t1.columns && mapping.m[c] in t2.columns
        && Str(Lookup(t1.rows[both[n].left], c)) != Str(Lookup(t2.rows[both[n].right], mapping.m[c]));
      MergedCellsAreSourceCells(t1, t2, mapping, both, n, c);
      assert c in cmp && Differs(m.rows[n], c);
    }
  }

  /** The configuration of one run, passed in explicitly: the column mapping, the key
      columns, and the aggregation switch, grouping columns and reductions. */
  datatype Settings = Settings(
    mapping: Dict<string>,
    keys: Dict<string>,
    useAggregation: bool,
    groupCols1: seq<string>,
    groupCols2: seq<string>,
    aggFunctions: Dict<string>)

  ghost predicate ValidSettings(s: Settings) {
    Valid(s.mapping) && Valid(s.keys) && Valid(s.aggFunctions)
  }

  /** Aggregation runs only when it is switched on and both grouping lists and the
      reductions are all non-empty; otherwise it is skipped silently. */
  predicate AggregationRequested(s: Settings) {
    s.useAggregation && |s.groupCols1| > 0 && |s.groupCols2| > 0 && |s.aggFunctions.keys| > 0
  }

  /** The tables, mapping and key set the join works on. */
  function Stage(df1: Table<string>, df2: Table<string>, s: Settings, reduce: Reducer): (r: Result<Aggregated>)
    requires ValidSettings(s)
    ensures r.Ok? ==> Valid(r.value.mapping) && Valid(r.value.keys)
    ensures r.Ok? ==> |r.value.t1.rows| <= |df1.rows| && |r.value.t2.rows| <= |df2.rows|
  {
    if AggregationRequested(s)
    then AggregateDataframes(df1, df2, s.mapping, s.groupCols1, s.groupCols2, s.aggFunctions, reduce)
    else Ok(Aggregated(df1, df2, s.mapping, s.keys))
  }

  /** Everything up to and including the join. */
  datatype Prepared = Prepared(stage: Aggregated, t1: Table<string>, t2: Table<string>,
                               keys1: seq<string>, keys2: seq<string>, joined: Joined)

  /** The keys are the composite keys of the two prepared tables over a non-empty key
      list, the join positions point into the tables they came from, and the only-in
      positions also point into the original inputs. */
  ghost predicate Consistent(df1: Table<string>, df2: Table<string>, p: Prepared) {
    && Valid(p.stage.mapping)
    && p.t1 == WithRecordIds(p.stage.t1)
    && p.t2 == ShadowTable(p.stage.t2, p.stage.mapping)
    && |p.stage.keys.keys| > 0
    && CreateCompositeKey(p.t1, p.stage.keys.keys) == Ok(p.keys1)
    && CreateCompositeKey(p.t2, p.stage.keys.keys) == Ok(p.keys2)
    && |p.keys1| == |p.t1.rows| && |p.keys2| == |p.t2.rows|
    && p.joined == OuterJoin(p.keys1, p.keys2)
    && (forall x :: x in p.joined.both ==> x.left < |p.t1.rows| && x.right < |p.t2.rows|)
    && (forall n :: 0 <= n < |p.joined.leftOnly| ==> p.joined.leftOnly[n] < |df1.rows|)
    && (forall n :: 0 <= n < |p.joined.rightOnly| ==> p.joined.rightOnly[n] < |df2.rows|)
  }

  function Prepare(df1: Table<string>, df2: Table<string>, s: Settings, reduce: Reducer): (r: Result<Prepared>)
    requires ValidSettings(s)
    ensures r.Ok? ==> Consistent(df1, df2, r.value)
    ensures r.Ok? ==> Stage(df1, df2, s, reduce).Ok? && r.value.stage == Stage(df1, df2, s, reduce).value
  {
    var a :- Stage(df1, df2, s, reduce);
    var t1 := WithRecordIds(a.t1);
    var t2 := ShadowTable(a.t2, a.mapping);
    if |a.keys.keys| == 0 then Err(NoKeyColumnsForMatching)
    else
      var k1 := CreateCompositeKey(t1, a.keys.keys).value;
      var k2 := CreateCompositeKey(t2, a.keys.keys).value;
      var p := Prepared(a, t1, t2, k1, k2, OuterJoin(k1, k2));
      PreparedIsConsistent(df1, df2, p);
      Ok(p)
  }

  lemma PreparedIsConsistent(df1: Table<string>, df2: Table<string>, p: Prepared)
    requires Valid(p.stage.mapping)
    requires |p.stage.t1.rows| <= |df1.rows| && |p.stage.t2.rows| <= |df2.rows|
    requires p.t1 == WithRecordIds(p.stage.t1) && p.t2 == ShadowTable(p.stage.t2, p.stage.mapping)
    requires |p.stage.keys.keys| > 0
    requires CreateCompositeKey(p.t1, p.stage.keys.keys) == Ok(p.keys1)
    requires CreateCompositeKey(p.t2, p.stage.keys.keys) == Ok(p.keys2)
    requires p.joined == OuterJoin(p.keys1, p.keys2)
    ensures Consistent(df1, df2, p)
  {
    JoinPositionsInRange(p.keys1, p.keys2);
    forall n | 0 <= n < |p.joined.leftOnly|
      ensures p.joined.leftOnly[n] < |df1.rows|
    {
      assert p.joined.leftOnly[n] in p.joined.leftOnly;
    }
    forall n | 0 <= n < |p.joined.rightOnly|
      ensures p.joined.rightOnly[n] < |df2.rows|
    {
      assert p.joined.rightOnly[n] in p.joined.rightOnly;
    }
  }

  datatype Stats = Stats(matched: nat, mismatched: nat, onlyInFile1: nat, onlyInFile2: nat)

  /** The result bundle: the counts and the three result tables. */
  datatype Reconciliation = Reconciliation(stats: Stats, mismatchedData: Table<Col>,
                                           onlyInFile1Data: Table<string>, onlyInFile2Data: Table<string>)

  /** `t.iloc[ids].reset_index(drop=True)`, or an empty frame when there are no ids. */
  function OnlyIn(t: Table<string>, ids: seq<nat>): Table<string>
    requires forall n :: 0 <= n < |ids| ==> ids[n] < |t.rows|
  {
    if |ids| == 0 then Table([], [])
    else Table(t.columns, seq(|ids|, n requires 0 <= n < |ids| => t.rows[ids[n]]))
  }

  /** The merged `both` rows of the join. */
  function Matched(df1: Table<string>, df2: Table<string>, p: Prepared): Table<Col>
    requires Consistent(df1, df2, p)
  {
    MatchedTable(p.t1, p.t2, p.joined.both)
  }

  /** The positions, among the `both` rows, of the pairs the detector reports. */
  function FlaggedPairs(df1: Table<string>, df2: Table<string>, p: Prepared): (r: seq<nat>)
    requires Consistent(df1, df2, p)
    ensures Ascending(r)
    ensures forall a :: 0 <= a < |r| ==> r[a] < |p.joined.both|
  {
    var m := Matched(df1, df2, p);
    MismatchIndices(m.rows, ComparedColumns(m.columns, p.stage.mapping.keys), |m.rows|)
  }

  function Assemble(df1: Table<string>, df2: Table<string>, p: Prepared): (r: Reconciliation)
    requires Consistent(df1, df2, p)
    ensures r.stats.mismatched == |r.mismatchedData.rows| == |FlaggedPairs(df1, df2, p)|
    ensures r.stats.matched + r.stats.mismatched == |p.joined.both|
  {
    var m := Matched(df1, df2, p);
    var mismatched := IdentifyMismatches(m, p.stage.mapping.keys);
    Reconciliation(
      Stats(|p.joined.both| - |mismatched.rows|, |mismatched.rows|, |p.joined.leftOnly|, |p.joined.rightOnly|),
      mismatched,
      OnlyIn(df1, p.joined.leftOnly),
      OnlyIn(df2, p.joined.rightOnly))
  }

  /** perform_reconciliation(df1, df2, ...). The run fails when the key set it ends up
      with is empty: without aggregation that is the given key set, with aggregation it
      is the mapped table-1 grouping columns; an aggregation error comes first. */
  function PerformReconciliation(df1: Table<string>, df2: Table<string>, s: Settings, reduce: Reducer): (r: Result<Reconciliation>)
    requires ValidSettings(s)
    ensures !AggregationRequested(s) ==> (r.Err? <==> |s.keys.keys| == 0)
    ensures !AggregationRequested(s) && r.Err? ==> r.error == NoKeyColumnsForMatching
    ensures AggregationRequested(s) ==>
      var a := AggregateDataframes(df1, df2, s.mapping, s.groupCols1, s.groupCols2, s.aggFunctions, reduce);
      && (a.Err? ==> r == Err(a.error))
      && (a.Ok? ==> (r.Err? <==> forall c :: c in s.groupCols1 ==> c !in s.mapping.m))
    ensures r.Ok? ==> (Prepare(df1, df2, s, reduce).Ok?
      && r.value.stats.matched + r.value.stats.mismatched == |Prepare(df1, df2, s, reduce).value.joined.both|)
  {
    var st := Stage(df1, df2, s, reduce);
    if st.Err? then Err(st.error)
    else
      EmptyKeys(st.value.keys);
      var p :- Prepare(df1, df2, s, reduce);
      Ok(Assemble(df1, df2, p))
  }

  /** A matched pair lands in the mismatch report exactly when it disagrees on some
      compared field (mapped, not internal, present on both sides), comparing cells as
      strings with null read as "". */
  lemma {:induction false} ReportedIffPairDiffers(df1: Table<string>, df2: Table<string>, p: Prepared, n: nat)
    requires Consistent(df1, df2, p)
    requires n < |p.joined.both|
    ensures p.joined.both[n].left < |p.stage.t1.rows| && p.joined.both[n].right < |p.stage.t2.rows|
    ensures n in FlaggedPairs(df1, df2, p) <==>
      PairDiffers(p.stage.t1, p.stage.t2, p.stage.mapping, p.joined.both[n].left, p.joined.both[n].right)
  {
    assert p.joined.both[n] in p.joined.both;
    FlaggedIffPairDiffers(p.stage.t1, p.stage.t2, p.stage.mapping, p.joined.both, n);
  }

  /** The join-key cell of a merged matched row is the key of its pair. */
  lemma KeyCellIsKey(t1c: Table<string>, t2m: Table<string>, both: seq<Match>, n: nat)
    requires forall x :: x in both ==> x.left < |t1c.rows| && x.right < |t2m.rows|
    requires n < |both|
    ensures Plain(KeyCol) in MergedColumns(MergeLayout(t1c, t2m))
    ensures Lookup(MatchedTable(t1c, t2m, both).rows[n], Plain(KeyCol)) == Text(both[n].key)
  {
    var lay := MergeLayout(t1c, t2m);
    assert KeyCol in lay.left && KeyCol !in lay.overlap;
    MatchedRowCell(t1c, t2m, both, n, Plain(KeyCol));
  }

  /** Row k of the mismatch report of any merged matched table shows, for a compared
      column, the two merged cells of the k-th flagged pair, and the pair's key. */
  lemma {:induction false} ReportRowOf(t1c: Table<string>, t2m: Table<string>, both: seq<Match>, compare: seq<string>, k: nat, c: string)
    requires forall x :: x in both ==> x.left < |t1c.rows| && x.right < |t2m.rows|
    requires var m := MatchedTable(t1c, t2m, both);
      var cmp := ComparedColumns(m.columns, compare);
      k < |MismatchIndices(m.rows, cmp, |m.rows|)| && c in cmp && c != KeyCol
    ensures var m := MatchedTable(t1c, t2m, both);
      var n := MismatchIndices(m.rows, ComparedColumns(m.columns, compare), |m.rows|)[k];
      n < |both| && both[n].left < |t1c.rows| && both[n].right < |t2m.rows| &&
      var a := Lookup(t1c.rows[both[n].left], c);
      var b := Lookup(t2m.rows[both[n].right], c);
      var out := IdentifyMismatches(m, compare).rows[k];
      && Lookup(out, File1(c)) == a
      && Lookup(out, File2(c)) == b
      && Lookup(out, Diff(c)) == (if Str(a) != Str(b) then Text(DiffText(a, b)) else Null)
      && Lookup(out, Plain(KeyCol)) == Text(both[n].key)
  {
    var m := MatchedTable(t1c, t2m, both);
    var n := MismatchIndices(m.rows, ComparedColumns(m.columns, compare), |m.rows|)[k];
    assert both[n] in both;
    assert m.columns == MergedColumns(MergeLayout(t1c, t2m));
    MergedPairCells(t1c, t2m, both, n, c);
    KeyCellIsKey(t1c, t2m, both, n);
    DiffCells(m, compare, k, c);
  }

  /** Row k of the mismatch report of a merged matched table shows, for a compared field,
      the two source cells of the k-th flagged pair and a difference text exactly where
      they disagree, and the pair's composite key. */
  lemma {:induction false} ReportCells(t1: Table<string>, t2: Table<string>, mapping: Dict<string>, both: seq<Match>, k: nat, c: string)
    requires Valid(mapping)
    requires forall x :: x in both ==> x.left < |t1.rows| && x.right < |t2.rows|
    requires var m := MatchedTable(WithRecordIds(t1), ShadowTable(t2, mapping), both);
      k < |MismatchIndices(m.rows, ComparedColumns(m.columns, mapping.keys), |m.rows|)|
    requires c in mapping.m && !Internal(c) && c in t1.columns && mapping.m[c] in t2.columns
    ensures var m := MatchedTable(WithRecordIds(t1), ShadowTable(t2, mapping), both);
      var x := both[MismatchIndices(m.rows, ComparedColumns(m.columns, mapping.keys), |m.rows|)[k]];
      x.left < |t1.rows| && x.right < |t2.rows| &&
      var a := Lookup(t1.rows[x.left], c);
      var b := Lookup(t2.rows[x.right], mapping.m[c]);
      var out := IdentifyMismatches(m, mapping.keys).rows[k];
      && Lookup(out, File1(c)) == a
      && Lookup(out, File2(c)) == b
      && Lookup(out, Diff(c)) == (if Str(a) != Str(b) then Text(DiffText(a, b)) else Null)
      && Lookup(out, Plain(KeyCol)) == Text(x.key)
  {
    var t1c, t2m := WithRecordIds(t1), ShadowTable(t2, mapping);
    var m := MatchedTable(t1c, t2m, both);
    var n := MismatchIndices(m.rows, ComparedColumns(m.columns, mapping.keys), |m.rows|)[k];
    assert c in ComparedColumns(m.columns, mapping.keys) by {
      ComparedAreMappedPresent(t1, t2, mapping, both);
    }
    assert c != KeyCol by {
      assert Internal(KeyCol);
    }
    ReportRowOf(t1c, t2m, both, mapping.keys, k, c);
    ShadowCells(t1, t2, mapping, both[n].left, both[n].right, c);
  }

  /** The same, for the mismatch report of a run: row k shows the cells of the k-th
      reported pair of the joined tables. */
  lemma {:induction false} ReportShowsSourceCells(df1: Table<string>, df2: Table<string>, p: Prepared, k: nat, c: string)
    requires Consistent(df1, df2, p)
    requires k < |FlaggedPairs(df1, df2, p)|
    requires c in p.stage.mapping.m && !Internal(c) && c in p.stage.t1.columns && p.stage.mapping.m[c] in p.stage.t2.columns
    ensures var x := p.joined.both[FlaggedPairs(df1, df2, p)[k]];
      x.left < |p.stage.t1.rows| && x.right < |p.stage.t2.rows| &&
      var a := Lookup(p.stage.t1.rows[x.left], c);
      var b := Lookup(p.stage.t2.rows[x.right], p.stage.mapping.m[c]);
      var out := Assemble(df1, df2, p).mismatchedData.rows[k];
      && Lookup(out, File1(c)) == a
      && Lookup(out, File2(c)) == b
      && Lookup(out, Diff(c)) == (if Str(a) != Str(b) then Text(DiffText(a, b)) else Null)
      && Lookup(out, Plain(KeyCol)) == Text(x.key)
  {
    ReportCells(p.stage.t1, p.stage.t2, p.stage.mapping, p.joined.both, k, c);
  }

  /** The only-in results are the input rows at the unmatched positions, in ascending
      position order, or an empty frame when there are none. The positions are those of
      the tables that were joined; when aggregation ran they are group positions, yet they still index the
      original inputs. */
  lemma OnlyInRowsAreInputRows(df1: Table<string>, df2: Table<string>, p: Prepared)
    requires Consistent(df1, df2, p)
    ensures var r := Assemble(df1, df2, p);
      && r.stats.onlyInFile1 == |p.joined.leftOnly| && r.stats.onlyInFile2 == |p.joined.rightOnly|
      && (|p.joined.leftOnly| == 0 <==> r.onlyInFile1Data == Table([], []))
      && (|p.joined.rightOnly| == 0 <==> r.onlyInFile2Data == Table([], []))
      && (|p.joined.leftOnly| > 0 ==>
            && r.onlyInFile1Data.columns == df1.columns
            && |r.onlyInFile1Data.rows| == |p.joined.leftOnly|
            && forall n :: 0 <= n < |p.joined.leftOnly| ==> r.onlyInFile1Data.rows[n] == df1.rows[p.joined.leftOnly[n]])
      && (|p.joined.rightOnly| > 0 ==>
            && r.onlyInFile2Data.columns == df2.columns
            && |r.onlyInFile2Data.rows| == |p.joined.rightOnly|
            && forall n :: 0 <= n < |p.joined.rightOnly| ==> r.onlyInFile2Data.rows[n] == df2.rows[p.joined.rightOnly[n]])
  {
    var r := Assemble(df1, df2, p);
    assert r.stats.onlyInFile1 == |p.joined.leftOnly| && r.stats.onlyInFile2 == |p.joined.rightOnly|;
    assert r.onlyInFile1Data == OnlyIn(df1, p.joined.leftOnly);
    assert r.onlyInFile2Data == OnlyIn(df2, p.joined.rightOnly);
    OnlyInLookup(df1, p.joined.leftOnly);
    OnlyInLookup(df2, p.joined.rightOnly);
  }

  /** The lookup by positions returns the rows at those positions, in order, under the
      table's columns; no positions give an empty frame. */
  lemma OnlyInLookup(t: Table<string>, ids: seq<nat>)
    requires forall n :: 0 <= n < |ids| ==> ids[n] < |t.rows|
    ensures |ids| == 0 <==> OnlyIn(t, ids) == Table([], [])
    ensures |ids| > 0 ==>
      && OnlyIn(t, ids).columns == t.columns
      && |OnlyIn(t, ids).rows| == |ids|
      && forall n :: 0 <= n < |ids| ==> OnlyIn(t, ids).rows[n] == t.rows[ids[n]]
  {
  }

  /** A successful run is the assembly of its prepared join; without aggregation the joined
      tables are the inputs themselves. */
  lemma RunIsAssembled(df1: Table<string>, df2: Table<string>, s: Settings, reduce: Reducer)
    requires ValidSettings(s)
    requires PerformReconciliation(df1, df2, s, reduce).Ok?
    ensures Prepare(df1, df2, s, reduce).Ok?
    ensures PerformReconciliation(df1, df2, s, reduce).value == Assemble(df1, df2, Prepare(df1, df2, s, reduce).value)
    ensures !AggregationRequested(s) ==>
      var p := Prepare(df1, df2, s, reduce).value;
      p.stage.t1 == df1 && p.stage.t2 == df2 && p.stage.mapping == s.mapping
  {
  }

  /** Each row the left-only lookup returns is a row of `t` whose key occurs nowhere on
      the right side and which is in no matched pair. */
  lemma {:induction false} LeftOnlyRowsHaveNoPartner(t: Table<string>, k1: seq<string>, k2: seq<string>, n: nat)
    requires |k1| == |t.rows|
    requires forall a :: 0 <= a < |OuterJoin(k1, k2).leftOnly| ==> OuterJoin(k1, k2).leftOnly[a] < |t.rows|
    requires n < |OnlyIn(t, OuterJoin(k1, k2).leftOnly).rows|
    ensures exists i :: (0 <= i < |t.rows| && OnlyIn(t, OuterJoin(k1, k2).leftOnly).rows[n] == t.rows[i]
      && k1[i] !in k2 && forall x :: x in OuterJoin(k1, k2).both ==> x.left != i)
  {
    var ids := OuterJoin(k1, k2).leftOnly;
    var i := ids[n];
    assert i in ids;
    LeftOnlyUnpaired(k1, k2, i);
    assert OnlyIn(t, ids).rows[n] == t.rows[i];
  }

  /** Each row the right-only lookup returns is a row of `t` whose key occurs nowhere on
      the left side and which is in no matched pair. */
  lemma {:induction false} RightOnlyRowsHaveNoPartner(t: Table<string>, k1: seq<string>, k2: seq<string>, n: nat)
    requires |k2| == |t.rows|
    requires forall a :: 0 <= a < |OuterJoin(k1, k2).rightOnly| ==> OuterJoin(k1, k2).rightOnly[a] < |t.rows|
    requires n < |OnlyIn(t, OuterJoin(k1, k2).rightOnly).rows|
    ensures exists j :: (0 <= j < |t.rows| && OnlyIn(t, OuterJoin(k1, k2).rightOnly).rows[n] == t.rows[j]
      && k2[j] !in k1 && forall x :: x in OuterJoin(k1, k2).both ==> x.right != j)
  {
    var ids := OuterJoin(k1, k2).rightOnly;
    var j := ids[n];
    assert j in ids;
    RightOnlyUnpaired(k1, k2, j);
    assert OnlyIn(t, ids).rows[n] == t.rows[j];
  }

  /** Without aggregation, the n-th only-in-file-1 row is a row of file 1 whose composite
      key occurs nowhere in file 2 and which is in no matched pair; likewise for file 2. */
  lemma {:induction false} OnlyInRowsHaveNoPartner(df1: Table<string>, df2: Table<string>, s: Settings, reduce: Reducer, n: nat)
    requires ValidSettings(s) && !AggregationRequested(s)
    requires PerformReconciliation(df1, df2, s, reduce).Ok?
    ensures var r := PerformReconciliation(df1, df2, s, reduce).value;
      var p := Prepare(df1, df2, s, reduce).value;
      n < |r.onlyInFile1Data.rows| ==>
        exists i :: (0 <= i < |df1.rows| && r.onlyInFile1Data.rows[n] == df1.rows[i]
          && p.keys1[i] !in p.keys2 && forall x :: x in p.joined.both ==> x.left != i)
    ensures var r := PerformReconciliation(df1, df2, s, reduce).value;
      var p := Prepare(df1, df2, s, reduce).value;
      n < |r.onlyInFile2Data.rows| ==>
        exists j :: (0 <= j < |df2.rows| && r.onlyInFile2Data.rows[n] == df2.rows[j]
          && p.keys2[j] !in p.keys1 && forall x :: x in p.joined.both ==> x.right != j)
  {
    RunIsAssembled(df1, df2, s, reduce);
    var p := Prepare(df1, df2, s, reduce).value;
    var r := PerformReconciliation(df1, df2, s, reduce).value;
    assert r.onlyInFile1Data == OnlyIn(df1, p.joined.leftOnly);
    assert r.onlyInFile2Data == OnlyIn(df2, p.joined.rightOnly);
    if n < |r.onlyInFile1Data.rows| {
      LeftOnlyRowsHaveNoPartner(df1, p.keys1, p.keys2, n);
    }
    if n < |r.onlyInFile2Data.rows| {
      RightOnlyRowsHaveNoPartner(df2, p.keys1, p.keys2, n);
    }
  }
}
