/** Optional pre-aggregation of both tables (aggregate_dataframes). */
module Aggregate {
  import opened Cells
  import opened Seqs
  import opened Dicts
  import opened Results

  /** The reduction named by a function name (sum, mean, count, min, max, or any other
      name a preset supplies) applied to the cells of one group; a parameter of the model.
      An error result stands for `agg` raising, as it does for an unknown name, `mean`
      over text or `sum` over numbers mixed with strings. */
  type Reducer = (string, seq<Cell>) -> Result<Cell>

  /** The grouping cells of a row, in grouping-column order. */
  function GroupTuple(row: map<string, Cell>, gcols: seq<string>): (r: seq<Cell>)
    ensures |r| == |gcols|
  {
    seq(|gcols|, k requires 0 <= k < |gcols| => Lookup(row, gcols[k]))
  }

  /** Row `i` opens a group: its grouping tuple has no null cell (groupby drops groups with
      a null grouping value) and no earlier row has the same tuple. */
  predicate OpensGroup(rows: seq<map<string, Cell>>, gcols: seq<string>, i: nat)
    requires i < |rows|
  {
    && Null !in GroupTuple(rows[i], gcols)
    && forall j :: 0 <= j < i ==> GroupTuple(rows[j], gcols) != GroupTuple(rows[i], gcols)
  }

  /** Per row, whether it opens a group. */
  function GroupOpenings(rows: seq<map<string, Cell>>, gcols: seq<string>): (r: seq<bool>)
    ensures |r| == |rows|
    ensures forall i :: 0 <= i < |rows| ==> r[i] == OpensGroup(rows, gcols, i)
  {
    seq(|rows|, i requires 0 <= i < |rows| => OpensGroup(rows, gcols, i))
  }

  /** The rows among the first `n` that open a group, in row order: one per group. */
  function GroupReps(rows: seq<map<string, Cell>>, gcols: seq<string>, n: nat): (r: seq<nat>)
    requires n <= |rows|
    ensures forall i: nat :: i in r <==> i < n && OpensGroup(rows, gcols, i)
    ensures forall a :: 0 <= a < |r| ==> r[a] < n
    ensures Ascending(r)
    ensures |r| <= n
  {
    Positions(GroupOpenings(rows, gcols), n)
  }

  /** Every row whose grouping tuple has no null cell belongs to a group opened at or
      before it. */
  lemma {:induction false} GroupOpenedBy(rows: seq<map<string, Cell>>, gcols: seq<string>, i: nat)
    requires i < |rows| && Null !in GroupTuple(rows[i], gcols)
    ensures exists p :: 0 <= p <= i && OpensGroup(rows, gcols, p) && GroupTuple(rows[p], gcols) == GroupTuple(rows[i], gcols)
    decreases i
  {
    if !OpensGroup(rows, gcols, i) {
      var j :| 0 <= j < i && GroupTuple(rows[j], gcols) == GroupTuple(rows[i], gcols);
      GroupOpenedBy(rows, gcols, j);
    }
  }

  /** The cells of column `c` in the rows among the first `n` whose grouping tuple is
      `tuple`, in row order: what a reduction of that group sees. */
  function GroupCells(rows: seq<map<string, Cell>>, gcols: seq<string>, tuple: seq<Cell>, c: string, n: nat): (r: seq<Cell>)
    requires n <= |rows|
    ensures forall x :: x in r ==>
      exists i :: 0 <= i < n && GroupTuple(rows[i], gcols) == tuple && Lookup(rows[i], c) == x
    ensures (exists i :: 0 <= i < n && GroupTuple(rows[i], gcols) == tuple) ==> |r| >= 1
    decreases n
  {
    if n == 0 then []
    else
      GroupCells(rows, gcols, tuple, c, n - 1)
        + (if GroupTuple(rows[n - 1], gcols) == tuple then [Lookup(rows[n - 1], c)] else [])
  }

  /** Per row, whether its grouping tuple is `tuple`. */
  function InGroup(rows: seq<map<string, Cell>>, gcols: seq<string>, tuple: seq<Cell>): (r: seq<bool>)
    ensures |r| == |rows|
    ensures forall i :: 0 <= i < |rows| ==> r[i] == (GroupTuple(rows[i], gcols) == tuple)
  {
    seq(|rows|, i requires 0 <= i < |rows| => GroupTuple(rows[i], gcols) == tuple)
  }

  /** The rows among the first `n` whose grouping tuple is `tuple`, in row order. */
  function GroupRows(rows: seq<map<string, Cell>>, gcols: seq<string>, tuple: seq<Cell>, n: nat): (r: seq<nat>)
    requires n <= |rows|
    ensures forall i: nat :: i in r <==> i < n && GroupTuple(rows[i], gcols) == tuple
    ensures forall a :: 0 <= a < |r| ==> r[a] < n
    ensures Ascending(r)
  {
    Positions(InGroup(rows, gcols, tuple), n)
  }

  /** A group's cells of column `c` are that column's cells of exactly the group's rows,
      one per row, in row order. */
  lemma {:induction false} GroupCellsAreGroupRows(rows: seq<map<string, Cell>>, gcols: seq<string>, tuple: seq<Cell>, c: string, n: nat)
    requires n <= |rows|
    ensures var ids := GroupRows(rows, gcols, tuple, n);
      var cells := GroupCells(rows, gcols, tuple, c, n);
      && |cells| == |ids|
      && forall k :: 0 <= k < |ids| ==> cells[k] == Lookup(rows[ids[k]], c)
    decreases n
  {
    if n > 0 {
      GroupCellsAreGroupRows(rows, gcols, tuple, c, n - 1);
    }
  }

  /** The value of a reduction that succeeded; a failed one is never shown, because the
      aggregation as a whole fails (AggregateTable). */
  function ReducedValue(v: Result<Cell>): Cell {
    if v.Ok? then v.value else Null
  }

  /** Every reduction applies to the cells of every group. */
  predicate ReductionsApply(t: Table<string>, gcols: seq<string>, funcs: Dict<string>, reduce: Reducer) {
    forall i, c :: 0 <= i < |t.rows| && OpensGroup(t.rows, gcols, i) && c in funcs.m ==>
      reduce(funcs.m[c], GroupCells(t.rows, gcols, GroupTuple(t.rows[i], gcols), c, |t.rows|)).Ok?
  }

  /** The aggregated row of the group whose first row is `rep`. */
  function AggRow(t: Table<string>, gcols: seq<string>, funcs: Dict<string>, reduce: Reducer, rep: nat): (r: map<string, Cell>)
    requires rep < |t.rows|
    requires forall c :: c in funcs.m ==> c !in gcols
    ensures GroupTuple(r, gcols) == GroupTuple(t.rows[rep], gcols)
    ensures forall c :: c in funcs.m ==> c in r
    ensures forall c :: c in funcs.m ==>
      var v := reduce(funcs.m[c], GroupCells(t.rows, gcols, GroupTuple(t.rows[rep], gcols), c, |t.rows|));
      v.Ok? ==> c in r && r[c] == v.value
  {
    var tuple := GroupTuple(t.rows[rep], gcols);
    var r := (map c | c in gcols :: Lookup(t.rows[rep], c))
      + (map c | c in funcs.m :: ReducedValue(reduce(funcs.m[c], GroupCells(t.rows, gcols, tuple, c, |t.rows|))));
    assert forall k :: 0 <= k < |gcols| ==> Lookup(r, gcols[k]) == Lookup(t.rows[rep], gcols[k]);
    r
  }

  /** The output rows, one per group, in the order the groups open. */
  function AggregatedRows(t: Table<string>, gcols: seq<string>, funcs: Dict<string>, reduce: Reducer): (r: seq<map<string, Cell>>)
    requires forall c :: c in funcs.m ==> c !in gcols
    ensures var reps := GroupReps(t.rows, gcols, |t.rows|);
      && |r| == |reps|
      && forall n :: 0 <= n < |r| ==> r[n] == AggRow(t, gcols, funcs, reduce, reps[n])
  {
    var reps := GroupReps(t.rows, gcols, |t.rows|);
    seq(|reps|, n requires 0 <= n < |reps| => AggRow(t, gcols, funcs, reduce, reps[n]))
  }

  /** `t.groupby(gcols).agg(funcs).reset_index()`: the grouping columns then the reduced
      columns, one row per group. A grouping column the table lacks raises a KeyError, an
      empty grouping list on a table with rows raises a ValueError, an empty set of
      reductions leaves nothing to aggregate, and a reduction that does not apply to some
      group's cells makes `agg` raise. */
  function AggregateTable(t: Table<string>, gcols: seq<string>, funcs: Dict<string>, reduce: Reducer): (r: Result<Table<string>>)
    requires Valid(funcs)
    requires forall c :: c in funcs.m ==> c !in gcols
    ensures r.Err? <==> || (exists g :: g in gcols && g !in t.columns)
                        || (|gcols| == 0 && |t.rows| > 0)
                        || |funcs.keys| == 0
                        || !ReductionsApply(t, gcols, funcs, reduce)
    ensures r.Err? ==> r.error == (if exists g :: g in gcols && g !in t.columns then MissingGroupColumn
                                   else if |gcols| == 0 && |t.rows| > 0 then NoGroupKeys
                                   else if |funcs.keys| == 0 then NothingToAggregate
                                   else ReductionFailed)
    ensures r.Ok? ==> forall c :: c in r.value.columns <==> c in gcols || c in funcs.m
    ensures r.Ok? ==> |r.value.rows| <= |t.rows|
    ensures r.Ok? ==> r.value.rows == AggregatedRows(t, gcols, funcs, reduce)
  {
    if exists g :: g in gcols && g !in t.columns then Err(MissingGroupColumn)
    else if |gcols| == 0 && |t.rows| > 0 then Err(NoGroupKeys)
    else if |funcs.keys| == 0 then Err(NothingToAggregate)
    else if !ReductionsApply(t, gcols, funcs, reduce) then Err(ReductionFailed)
    else Ok(Table(gcols + funcs.keys, AggregatedRows(t, gcols, funcs, reduce)))
  }

  /** Each output row's grouping tuple has no null cell and occurs in the input. */
  lemma {:induction false} GroupsComeFromInput(t: Table<string>, gcols: seq<string>, funcs: Dict<string>, reduce: Reducer)
    requires forall c :: c in funcs.m ==> c !in gcols
    ensures var out := AggregatedRows(t, gcols, funcs, reduce);
      forall n :: 0 <= n < |out| ==>
        && Null !in GroupTuple(out[n], gcols)
        && exists i :: 0 <= i < |t.rows| && GroupTuple(t.rows[i], gcols) == GroupTuple(out[n], gcols)
  {
    var out := AggregatedRows(t, gcols, funcs, reduce);
    var reps := GroupReps(t.rows, gcols, |t.rows|);
    forall n | 0 <= n < |out|
      ensures Null !in GroupTuple(out[n], gcols)
      ensures exists i :: 0 <= i < |t.rows| && GroupTuple(t.rows[i], gcols) == GroupTuple(out[n], gcols)
    {
      assert reps[n] in reps;
      assert GroupTuple(out[n], gcols) == GroupTuple(t.rows[reps[n]], gcols);
    }
  }

  /** No two output rows share a grouping tuple. */
  lemma {:induction false} GroupsAreDistinct(t: Table<string>, gcols: seq<string>, funcs: Dict<string>, reduce: Reducer)
    requires forall c :: c in funcs.m ==> c !in gcols
    ensures var out := AggregatedRows(t, gcols, funcs, reduce);
      forall a, b :: 0 <= a < b < |out| ==> GroupTuple(out[a], gcols) != GroupTuple(out[b], gcols)
  {
    var out := AggregatedRows(t, gcols, funcs, reduce);
    var reps := GroupReps(t.rows, gcols, |t.rows|);
    forall a, b | 0 <= a < b < |out|
      ensures GroupTuple(out[a], gcols) != GroupTuple(out[b], gcols)
    {
      assert reps[b] in reps;
      assert GroupTuple(out[a], gcols) == GroupTuple(t.rows[reps[a]], gcols);
      assert GroupTuple(out[b], gcols) == GroupTuple(t.rows[reps[b]], gcols);
    }
  }

  /** Every input row whose grouping tuple has no null cell has the output row of its group. */
  lemma {:induction false} EveryGroupIsKept(t: Table<string>, gcols: seq<string>, funcs: Dict<string>, reduce: Reducer)
    requires forall c :: c in funcs.m ==> c !in gcols
    ensures var out := AggregatedRows(t, gcols, funcs, reduce);
      forall i :: 0 <= i < |t.rows| && Null !in GroupTuple(t.rows[i], gcols) ==>
        exists n :: 0 <= n < |out| && GroupTuple(out[n], gcols) == GroupTuple(t.rows[i], gcols)
  {
    var out := AggregatedRows(t, gcols, funcs, reduce);
    var reps := GroupReps(t.rows, gcols, |t.rows|);
    forall i | 0 <= i < |t.rows| && Null !in GroupTuple(t.rows[i], gcols)
      ensures exists n :: 0 <= n < |out| && GroupTuple(out[n], gcols) == GroupTuple(t.rows[i], gcols)
    {
      GroupOpenedBy(t.rows, gcols, i);
      var p :| 0 <= p <= i && OpensGroup(t.rows, gcols, p) && GroupTuple(t.rows[p], gcols) == GroupTuple(t.rows[i], gcols);
      assert p in reps;
      var n :| 0 <= n < |reps| && reps[n] == p;
      assert GroupTuple(out[n], gcols) == GroupTuple(t.rows[p], gcols);
    }
  }

  /** Each reduced cell of an output row is the reduction named for its column applied to
      that column's cells over the rows of the group, in row order, whenever the reductions
      apply (as they do in every successful aggregation); no group is empty. */
  lemma {:induction false} ReducedCells(t: Table<string>, gcols: seq<string>, funcs: Dict<string>, reduce: Reducer, n: nat, c: string)
    requires forall c :: c in funcs.m ==> c !in gcols
    requires n < |AggregatedRows(t, gcols, funcs, reduce)| && c in funcs.m
    ensures var row := AggregatedRows(t, gcols, funcs, reduce)[n];
      && c in row
      && (ReductionsApply(t, gcols, funcs, reduce) ==>
            var v := reduce(funcs.m[c], GroupCells(t.rows, gcols, GroupTuple(row, gcols), c, |t.rows|));
            v.Ok? && row[c] == v.value)
      && |GroupCells(t.rows, gcols, GroupTuple(row, gcols), c, |t.rows|)| >= 1
  {
    var reps := GroupReps(t.rows, gcols, |t.rows|);
    assert reps[n] in reps;
  }

  /** agg_dict_df1: the reductions whose column is in table 1 and is not one of its
      grouping columns. */
  function Reductions1(funcs: Dict<string>, cols1: seq<string>, gcols1: seq<string>): (r: Dict<string>)
    requires Valid(funcs)
    ensures Valid(r)
    ensures forall c :: c in r.m <==> c in funcs.m && c in cols1 && c !in gcols1
    ensures forall c :: c in r.m ==> r.m[c] == funcs.m[c]
  {
    Filter(funcs, c => c in cols1 && c !in gcols1)
  }

  /** Table-1 column `c1` is mapped to table-2 column `c2`. */
  predicate MapsTo(mapping: Dict<string>, c1: string, c2: string) {
    c1 in mapping.m && mapping.m[c1] == c2
  }

  /** The position of the last of the first `n` reductions whose column is mapped to
      `c2`, or -1 when there is none. */
  function LastReachingUpTo(funcs: Dict<string>, mapping: Dict<string>, c2: string, n: nat): (r: int)
    requires n <= |funcs.keys|
    ensures -1 <= r < n
    ensures r >= 0 ==> MapsTo(mapping, funcs.keys[r], c2)
    ensures forall b :: r < b < n ==> !MapsTo(mapping, funcs.keys[b], c2)
    decreases n
  {
    if n == 0 then -1
    else if MapsTo(mapping, funcs.keys[n - 1], c2) then n - 1
    else LastReachingUpTo(funcs, mapping, c2, n - 1)
  }

  /** agg_dict_df2 after the first `n` reductions: a reduction named for a table-1 column
      applies to the table-2 column it is mapped to, when that column is in table 2 and is
      not one of its grouping columns; a later reduction reaching the same column wins. */
  function Reductions2UpTo(funcs: Dict<string>, mapping: Dict<string>, cols2: seq<string>, gcols2: seq<string>, n: nat): (r: Dict<string>)
    requires Valid(funcs) && n <= |funcs.keys|
    ensures Valid(r)
    ensures forall c2 :: c2 in r.m <==>
      c2 in cols2 && c2 !in gcols2 && LastReachingUpTo(funcs, mapping, c2, n) >= 0
    ensures forall c2 :: c2 in r.m ==>
      r.m[c2] == funcs.m[funcs.keys[LastReachingUpTo(funcs, mapping, c2, n)]]
    decreases n
  {
    if n == 0 then Empty()
    else
      var prev := Reductions2UpTo(funcs, mapping, cols2, gcols2, n - 1);
      var c1 := funcs.keys[n - 1];
      assert c1 in funcs.m;
      if c1 in mapping.m && mapping.m[c1] in cols2 && mapping.m[c1] !in gcols2
      then Put(prev, mapping.m[c1], funcs.m[c1])
      else prev
  }

  function Reductions2(funcs: Dict<string>, mapping: Dict<string>, cols2: seq<string>, gcols2: seq<string>): (r: Dict<string>)
    requires Valid(funcs)
    ensures Valid(r)
    ensures forall c :: c in r.m ==> c !in gcols2
  {
    Reductions2UpTo(funcs, mapping, cols2, gcols2, |funcs.keys|)
  }

  /** updated_key_columns after the first `n` grouping columns of table 1: each mapped
      grouping column, with its mapped target. */
  function GroupKeysUpTo(gcols1: seq<string>, mapping: Dict<string>, n: nat): (r: Dict<string>)
    requires n <= |gcols1|
    ensures Valid(r)
    ensures forall c :: c in r.m <==> c in gcols1[..n] && c in mapping.m
    ensures forall c :: c in r.m ==> r.m[c] == mapping.m[c]
    decreases n
  {
    if n == 0 then Empty()
    else
      var prev := GroupKeysUpTo(gcols1, mapping, n - 1);
      var c := gcols1[n - 1];
      assert gcols1[..n] == gcols1[..n - 1] + [c];
      if c in mapping.m then Put(prev, c, mapping.m[c]) else prev
  }

  /** The outcome of aggregation: both tables, the rebuilt mapping and the new key set. */
  datatype Aggregated = Aggregated(t1: Table<string>, t2: Table<string>, mapping: Dict<string>, keys: Dict<string>)

  /** aggregate_dataframes. The key set passed in is not read by the source: the new keys
      are the grouping columns. */
  function AggregateDataframes(df1: Table<string>, df2: Table<string>, mapping: Dict<string>,
                               gcols1: seq<string>, gcols2: seq<string>, funcs: Dict<string>, reduce: Reducer): (r: Result<Aggregated>)
    requires Valid(mapping) && Valid(funcs)
    ensures var f1 := Reductions1(funcs, df1.columns, gcols1);
      var f2 := Reductions2(funcs, mapping, df2.columns, gcols2);
      && (r.Err? <==> || (exists g :: g in gcols1 && g !in df1.columns) || (|gcols1| == 0 && |df1.rows| > 0) || |f1.keys| == 0
                      || (exists g :: g in gcols2 && g !in df2.columns) || (|gcols2| == 0 && |df2.rows| > 0) || |f2.keys| == 0
                      || !ReductionsApply(df1, gcols1, f1, reduce) || !ReductionsApply(df2, gcols2, f2, reduce))
      && (r.Ok? ==> AggregateTable(df1, gcols1, f1, reduce) == Ok(r.value.t1))
      && (r.Ok? ==> AggregateTable(df2, gcols2, f2, reduce) == Ok(r.value.t2))
    ensures r.Ok? ==> Valid(r.value.mapping) && Valid(r.value.keys)
    ensures r.Ok? ==> forall c :: c in r.value.keys.m <==> c in gcols1 && c in mapping.m
    ensures r.Ok? ==> forall c :: c in r.value.keys.m ==> r.value.keys.m[c] == mapping.m[c]
    ensures r.Ok? ==> forall c :: c in r.value.mapping.m <==>
      c in mapping.m && c in r.value.t1.columns && mapping.m[c] in r.value.t2.columns
    ensures r.Ok? ==> forall c :: c in r.value.mapping.m ==> r.value.mapping.m[c] == mapping.m[c]
    ensures r.Ok? ==> |r.value.t1.rows| <= |df1.rows| && |r.value.t2.rows| <= |df2.rows|
  {
    var f1 := Reductions1(funcs, df1.columns, gcols1);
    var f2 := Reductions2(funcs, mapping, df2.columns, gcols2);
    var a1 :- AggregateTable(df1, gcols1, f1, reduce);
    var a2 :- AggregateTable(df2, gcols2, f2, reduce);
    var keys := GroupKeysUpTo(gcols1, mapping, |gcols1|);
    assert gcols1[..|gcols1|] == gcols1;
    var kept := Filter(mapping, c1 => c1 in a1.columns && c1 in mapping.m && mapping.m[c1] in a2.columns);
    Ok(Aggregated(a1, a2, kept, keys))
  }
}
