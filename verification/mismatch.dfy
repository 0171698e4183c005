/** Per-field mismatch detection over the matched rows of the join (identify_mismatches). */
module Mismatch {
  import opened Cells
  import opened Seqs

  /** A column name of the merged table: a name pandas left alone, the `<c>_file1` and
      `<c>_file2` names it gives a column present on both sides, and the `<c>_diff`
      column the detector adds. */
  datatype Col = Plain(name: string) | File1(name: string) | File2(name: string) | Diff(name: string)

  const KeyCol := "_composite_key"

  /** Bookkeeping columns start with an underscore and are never compared. */
  predicate Internal(c: string) {
    |c| > 0 && c[0] == '_'
  }

  /** The columns actually compared: those of `compare` that are not internal and whose
      `_file1` and `_file2` variants both exist, in `compare` order. */
  function ComparedColumns(cols: seq<Col>, compare: seq<string>): (r: seq<string>)
    ensures forall c :: c in r <==> c in compare && !Internal(c) && File1(c) in cols && File2(c) in cols
    decreases |compare|
  {
    if |compare| == 0 then []
    else
      var c := compare[|compare| - 1];
      var prev := ComparedColumns(cols, compare[..|compare| - 1]);
      assert compare == compare[..|compare| - 1] + [c];
      if !Internal(c) && File1(c) in cols && File2(c) in cols then prev + [c] else prev
  }

  /** The two sides of column `c` differ once null reads as "" and both are stringified. */
  predicate Differs(row: map<Col, Cell>, c: string) {
    Str(Lookup(row, File1(c))) != Str(Lookup(row, File2(c)))
  }

  predicate HasMismatch(row: map<Col, Cell>, cmp: seq<string>) {
    exists c :: c in cmp && Differs(row, c)
  }

  /** Per row, whether it differs in some compared column. */
  function MismatchFlags(rows: seq<map<Col, Cell>>, cmp: seq<string>): (r: seq<bool>)
    ensures |r| == |rows|
    ensures forall i :: 0 <= i < |rows| ==> r[i] == HasMismatch(rows[i], cmp)
  {
    seq(|rows|, i requires 0 <= i < |rows| => HasMismatch(rows[i], cmp))
  }

  /** The positions among the first `n` rows that differ in some compared column. */
  function MismatchIndices(rows: seq<map<Col, Cell>>, cmp: seq<string>, n: nat): (r: seq<nat>)
    requires n <= |rows|
    ensures forall i: nat :: i in r <==> i < n && HasMismatch(rows[i], cmp)
    ensures forall a :: 0 <= a < |r| ==> r[a] < n
    ensures Ascending(r)
    ensures |r| <= n
  {
    Positions(MismatchFlags(rows, cmp), n)
  }

  /** The text of a `_diff` cell. */
  function DiffText(a: Cell, b: Cell): string {
    "File1: " + Str(a) + " | File2: " + Str(b)
  }

  /** A cell of the result: a compared column's `_diff` cell holds the diff text where the
      two sides differ and null elsewhere; every other cell is the matched row's own. */
  function OutCell(row: map<Col, Cell>, x: Col, cmp: seq<string>): Cell {
    match x
    case Diff(c) =>
      if c !in cmp then Lookup(row, x)
      else if Differs(row, c) then Text(DiffText(Lookup(row, File1(c)), Lookup(row, File2(c))))
      else Null
    case _ => Lookup(row, x)
  }

  /** `_composite_key`, then `<c>_file1, <c>_file2, <c>_diff` per non-internal column. */
  function Wanted(compare: seq<string>): seq<Col>
    decreases |compare|
  {
    if |compare| == 0 then [Plain(KeyCol)]
    else
      var c := compare[|compare| - 1];
      assert compare == compare[..|compare| - 1] + [c];
      Wanted(compare[..|compare| - 1]) + (if Internal(c) then [] else [File1(c), File2(c), Diff(c)])
  }

  /** The wanted columns that exist in the result frame: the matched columns plus a
      `_diff` column per compared column. */
  function KeptColumns(wanted: seq<Col>, cols: seq<Col>, cmp: seq<string>): (r: seq<Col>)
    ensures forall x :: x in r <==> x in wanted && (x in cols || (x.Diff? && x.name in cmp))
    decreases |wanted|
  {
    if |wanted| == 0 then []
    else
      var x := wanted[|wanted| - 1];
      var prev := KeptColumns(wanted[..|wanted| - 1], cols, cmp);
      assert wanted == wanted[..|wanted| - 1] + [x];
      if x in cols || (x.Diff? && x.name in cmp) then prev + [x] else prev
  }

  /** The number of entries of `compare` that are not internal. */
  function VisibleCount(compare: seq<string>): nat
    decreases |compare|
  {
    if |compare| == 0 then 0
    else VisibleCount(compare[..|compare| - 1]) + (if Internal(compare[|compare| - 1]) then 0 else 1)
  }

  /** Where the columns of `compare[j]` start among the wanted columns: after the key
      and three columns per earlier entry that is not internal. */
  function Slot(compare: seq<string>, j: nat): nat
    requires j <= |compare|
  {
    1 + 3 * VisibleCount(compare[..j])
  }

  /** The wanted columns are `_composite_key` and the three variants of every requested
      column that is not internal. */
  lemma {:induction false} WantedMembers(compare: seq<string>)
    ensures forall x :: x in Wanted(compare) <==>
      || x == Plain(KeyCol)
      || (!x.Plain? && x.name in compare && !Internal(x.name))
    decreases |compare|
  {
    if |compare| > 0 {
      var m := |compare| - 1;
      WantedMembers(compare[..m]);
      assert compare == compare[..m] + [compare[m]];
    }
  }

  /** Three wanted columns per requested column that is not internal, after the key. */
  lemma {:induction false} WantedLength(compare: seq<string>)
    ensures |Wanted(compare)| == 1 + 3 * VisibleCount(compare)
    decreases |compare|
  {
    if |compare| > 0 {
      WantedLength(compare[..|compare| - 1]);
    }
  }

  /** The j-th requested column, when not internal, has its `_file1`, `_file2` and `_diff`
      columns at three consecutive positions after those of the earlier entries. */
  lemma {:induction false} WantedAt(compare: seq<string>, j: nat)
    requires j < |compare| && !Internal(compare[j])
    ensures var p := Slot(compare, j);
      && p + 2 < |Wanted(compare)|
      && Wanted(compare)[p] == File1(compare[j])
      && Wanted(compare)[p + 1] == File2(compare[j])
      && Wanted(compare)[p + 2] == Diff(compare[j])
    decreases |compare|
  {
    var m := |compare| - 1;
    var prefix := compare[..m];
    var w := Wanted(prefix);
    var tail := if Internal(compare[m]) then [] else [File1(compare[m]), File2(compare[m]), Diff(compare[m])];
    var p := Slot(compare, j);
    assert Wanted(compare) == w + tail;
    if j < m {
      WantedAt(prefix, j);
      assert prefix[j] == compare[j];
      assert compare[..j] == prefix[..j];
      assert p == Slot(prefix, j);
      assert (w + tail)[p] == w[p] && (w + tail)[p + 1] == w[p + 1] && (w + tail)[p + 2] == w[p + 2];
      assert w[p + 2] == Diff(compare[j]);
    } else {
      assert compare[..j] == prefix;
      WantedLength(prefix);
      assert p == |w|;
      assert tail == [File1(compare[j]), File2(compare[j]), Diff(compare[j])];
      assert (w + tail)[p + 2] == tail[2] == Diff(compare[j]);
    }
  }

  /** The wanted columns in order: `_composite_key` first, then for the j-th requested
      column that is not internal its `_file1`, `_file2` and `_diff` columns at positions
      1 + 3v, 2 + 3v and 3 + 3v, where v counts the earlier entries that are not internal. */
  lemma WantedOrder(compare: seq<string>)
    ensures var r := Wanted(compare);
      && |r| == 1 + 3 * VisibleCount(compare)
      && r[0] == Plain(KeyCol)
      && forall j :: 0 <= j < |compare| && !Internal(compare[j]) ==>
           var p := Slot(compare, j);
           && p + 2 < |r|
           && r[p] == File1(compare[j]) && r[p + 1] == File2(compare[j]) && r[p + 2] == Diff(compare[j])
  {
    WantedLength(compare);
    WantedFirst(compare);
    forall j | 0 <= j < |compare| && !Internal(compare[j])
      ensures var p := Slot(compare, j);
        && p + 2 < |Wanted(compare)|
        && Wanted(compare)[p] == File1(compare[j])
        && Wanted(compare)[p + 1] == File2(compare[j])
        && Wanted(compare)[p + 2] == Diff(compare[j])
    {
      WantedAt(compare, j);
    }
  }

  /** `_composite_key` is the first wanted column. */
  lemma {:induction false} WantedFirst(compare: seq<string>)
    ensures |Wanted(compare)| > 0 && Wanted(compare)[0] == Plain(KeyCol)
    decreases |compare|
  {
    if |compare| > 0 {
      WantedFirst(compare[..|compare| - 1]);
    }
  }

  /** Per wanted column, whether the result frame has it. */
  function KeepFlags(wanted: seq<Col>, cols: seq<Col>, cmp: seq<string>): (r: seq<bool>)
    ensures |r| == |wanted|
    ensures forall i :: 0 <= i < |wanted| ==> r[i] == (wanted[i] in cols || (wanted[i].Diff? && wanted[i].name in cmp))
  {
    seq(|wanted|, i requires 0 <= i < |wanted| => wanted[i] in cols || (wanted[i].Diff? && wanted[i].name in cmp))
  }

  /** The positions, in `wanted`, of the columns the result keeps. */
  function KeptPositions(wanted: seq<Col>, cols: seq<Col>, cmp: seq<string>): (r: seq<nat>)
    ensures forall i: nat :: i in r <==> i < |wanted| && (wanted[i] in cols || (wanted[i].Diff? && wanted[i].name in cmp))
    ensures forall a :: 0 <= a < |r| ==> r[a] < |wanted|
    ensures Ascending(r)
  {
    Positions(KeepFlags(wanted, cols, cmp), |wanted|)
  }

  /** The kept columns of the first `n` wanted ones are the wanted columns at the kept
      positions, in wanted order. */
  lemma {:induction false} KeptInOrder(wanted: seq<Col>, cols: seq<Col>, cmp: seq<string>, n: nat)
    requires n <= |wanted|
    ensures var kept := KeptColumns(wanted[..n], cols, cmp);
      var ids := Positions(KeepFlags(wanted, cols, cmp), n);
      && |kept| == |ids|
      && forall k :: 0 <= k < |ids| ==> kept[k] == wanted[ids[k]]
    decreases n
  {
    if n > 0 {
      KeptInOrder(wanted, cols, cmp, n - 1);
      assert wanted[..n][..n - 1] == wanted[..n - 1];
    }
  }

  /** One result row: the kept columns of a matched row, with its diff cells filled in. */
  function OutRow(row: map<Col, Cell>, kept: seq<Col>, cmp: seq<string>): (r: map<Col, Cell>)
    ensures forall x :: x in r <==> x in kept
    ensures forall x :: x in kept ==> r[x] == OutCell(row, x, cmp)
  {
    map x | x in kept :: OutCell(row, x, cmp)
  }

  /** Every compared column keeps its three result columns. */
  lemma ComparedAreKept(cols: seq<Col>, compare: seq<string>)
    ensures var cmp := ComparedColumns(cols, compare);
      var kept := KeptColumns(Wanted(compare), cols, cmp);
      forall c :: c in cmp ==> File1(c) in kept && File2(c) in kept && Diff(c) in kept
  {
    WantedMembers(compare);
  }

  /** identify_mismatches(matched_df, columns_to_compare). */
  function IdentifyMismatches(t: Table<Col>, compare: seq<string>): (r: Table<Col>)
    ensures var cmp := ComparedColumns(t.columns, compare);
      var idx := MismatchIndices(t.rows, cmp, |t.rows|);
      && |r.rows| == |idx| <= |t.rows|
      && (|idx| == 0 ==> r == Table([], []))
      && (forall n :: 0 <= n < |idx| ==> forall x :: x in r.rows[n] <==> x in r.columns)
  {
    var cmp := ComparedColumns(t.columns, compare);
    var idx := MismatchIndices(t.rows, cmp, |t.rows|);
    if |idx| == 0 then Table([], [])
    else
      var kept := KeptColumns(Wanted(compare), t.columns, cmp);
      ComparedAreKept(t.columns, compare);
      Table(kept, seq(|idx|, n requires 0 <= n < |idx| => OutRow(t.rows[idx[n]], kept, cmp)))
  }

  /** A non-empty result has the wanted columns the matched frame has, in wanted order
      (see WantedOrder): the result's k-th column is the wanted column at the k-th kept
      position. */
  lemma ResultColumns(t: Table<Col>, compare: seq<string>)
    ensures var cmp := ComparedColumns(t.columns, compare);
      var w := Wanted(compare);
      var ids := KeptPositions(w, t.columns, cmp);
      var cols := IdentifyMismatches(t, compare).columns;
      |MismatchIndices(t.rows, cmp, |t.rows|)| > 0 ==>
        && |cols| == |ids|
        && forall k :: 0 <= k < |ids| ==> cols[k] == w[ids[k]]
  {
    var w := Wanted(compare);
    KeptInOrder(w, t.columns, ComparedColumns(t.columns, compare), |w|);
    assert w[..|w|] == w;
  }

  /** Each result row is the matched row it came from, with the `_diff` cell of a compared
      column set to "File1: <a> | File2: <b>" exactly where the two sides differ and to
      null where they agree; its `_composite_key` cell is the matched row's when the
      matched frame has that column and null otherwise. */
  lemma DiffCells(t: Table<Col>, compare: seq<string>, n: nat, c: string)
    requires var cmp := ComparedColumns(t.columns, compare);
      n < |MismatchIndices(t.rows, cmp, |t.rows|)| && c in cmp
    ensures var cmp := ComparedColumns(t.columns, compare);
      var row := t.rows[MismatchIndices(t.rows, cmp, |t.rows|)[n]];
      var out := IdentifyMismatches(t, compare).rows[n];
      && File1(c) in out && File2(c) in out && Diff(c) in out
      && out[File1(c)] == Lookup(row, File1(c))
      && out[File2(c)] == Lookup(row, File2(c))
      && out[Diff(c)] == (if Differs(row, c)
          then Text(DiffText(Lookup(row, File1(c)), Lookup(row, File2(c))))
          else Null)
      && Lookup(out, Plain(KeyCol)) == (if Plain(KeyCol) in t.columns then Lookup(row, Plain(KeyCol)) else Null)
  {
    var cmp := ComparedColumns(t.columns, compare);
    var kept := KeptColumns(Wanted(compare), t.columns, cmp);
    ResultRow(t, compare, n);
    ComparedAreKept(t.columns, compare);
    WantedFirst(compare);
    OutRowCells(t.rows[MismatchIndices(t.rows, cmp, |t.rows|)[n]], kept, cmp, c);
  }

  /** Result row n is the output row of the n-th flagged matched row. */
  lemma ResultRow(t: Table<Col>, compare: seq<string>, n: nat)
    requires n < |MismatchIndices(t.rows, ComparedColumns(t.columns, compare), |t.rows|)|
    ensures var cmp := ComparedColumns(t.columns, compare);
      var idx := MismatchIndices(t.rows, cmp, |t.rows|);
      IdentifyMismatches(t, compare).rows[n] == OutRow(t.rows[idx[n]], KeptColumns(Wanted(compare), t.columns, cmp), cmp)
  {
  }

  /** The cells of one output row for a compared column and for the key column. */
  lemma OutRowCells(row: map<Col, Cell>, kept: seq<Col>, cmp: seq<string>, c: string)
    requires c in cmp && File1(c) in kept && File2(c) in kept && Diff(c) in kept
    ensures var out := OutRow(row, kept, cmp);
      && File1(c) in out && File2(c) in out && Diff(c) in out
      && out[File1(c)] == Lookup(row, File1(c))
      && out[File2(c)] == Lookup(row, File2(c))
      && out[Diff(c)] == (if Differs(row, c)
          then Text(DiffText(Lookup(row, File1(c)), Lookup(row, File2(c))))
          else Null)
      && Lookup(out, Plain(KeyCol)) == (if Plain(KeyCol) in kept then Lookup(row, Plain(KeyCol)) else Null)
  {
  }

  /** A matched row is reported exactly when one of its compared columns differs, and then
      exactly once, in matched-row order; when none differs the result is an empty frame. */
  lemma ReportedIffDiffers(t: Table<Col>, compare: seq<string>, i: nat)
    requires i < |t.rows|
    ensures var cmp := ComparedColumns(t.columns, compare);
      var idx := MismatchIndices(t.rows, cmp, |t.rows|);
      && (i in idx <==> exists c :: c in compare && !Internal(c) && File1(c) in t.columns
                                 && File2(c) in t.columns && Differs(t.rows[i], c))
      && (forall a, b :: 0 <= a < b < |idx| ==> idx[a] != idx[b])
  {
  }
}
