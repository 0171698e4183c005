/** Composite keys: the `|`-joined strings of a row's key cells (create_composite_key). */
module CompositeKey {
  import opened Cells
  import opened Results

  const Sep: char := '|'

  /** `'|'.join(parts)`. */
  function Join(parts: seq<string>): string
    decreases |parts|
  {
    if |parts| == 0 then ""
    else if |parts| == 1 then parts[0]
    else parts[0] + [Sep] + Join(parts[1..])
  }

  /** `s.split('|')`: the pieces between separators; always at least one. */
  function Split(s: string): (r: seq<string>)
    ensures |r| >= 1
    decreases |s|
  {
    if |s| == 0 then [""]
    else
      var rest := Split(s[1..]);
      if s[0] == Sep then [""] + rest else [[s[0]] + rest[0]] + rest[1..]
  }

  /** No part contains the separator. */
  predicate Clean(parts: seq<string>) {
    forall k :: 0 <= k < |parts| ==> Sep !in parts[k]
  }

  /** Joining the pieces of a split gives the string back, whatever it contains. */
  lemma {:induction false} JoinSplit(s: string)
    ensures Join(Split(s)) == s
    decreases |s|
  {
    if |s| > 0 {
      var rest := Split(s[1..]);
      JoinSplit(s[1..]);
      if s[0] == Sep {
        assert ([""] + rest)[1..] == rest;
        assert s == [s[0]] + s[1..];
      } else if |rest| == 1 {
        assert s == [s[0]] + s[1..];
      } else {
        var r := [[s[0]] + rest[0]] + rest[1..];
        assert r[1..] == rest[1..];
        assert s == [s[0]] + s[1..];
      }
    }
  }

  /** A string without separators splits into itself. */
  lemma {:induction false} SplitClean(a: string)
    requires Sep !in a
    ensures Split(a) == [a]
    decreases |a|
  {
    if |a| > 0 {
      SplitClean(a[1..]);
      assert a == [a[0]] + a[1..];
    }
  }

  /** Splitting stops at the first separator. */
  lemma {:induction false} SplitAtFirstSep(a: string, x: string)
    requires Sep !in a
    ensures Split(a + [Sep] + x) == [a] + Split(x)
    decreases |a|
  {
    var s := a + [Sep] + x;
    if |a| == 0 {
      assert s[1..] == x;
    } else {
      assert s[1..] == a[1..] + [Sep] + x;
      SplitAtFirstSep(a[1..], x);
      assert a == [a[0]] + a[1..];
    }
  }

  /** Splitting a key whose parts are free of separators recovers the parts. */
  lemma {:induction false} SplitJoin(parts: seq<string>)
    requires |parts| >= 1 && Clean(parts)
    ensures Split(Join(parts)) == parts
    decreases |parts|
  {
    if |parts| == 1 {
      SplitClean(parts[0]);
    } else {
      SplitAtFirstSep(parts[0], Join(parts[1..]));
      SplitJoin(parts[1..]);
      assert parts == [parts[0]] + parts[1..];
    }
  }

  /** Two separator-free part lists of one length give one key only if they are equal. */
  lemma JoinInjective(p: seq<string>, q: seq<string>)
    requires |p| == |q| >= 1 && Clean(p) && Clean(q)
    ensures Join(p) == Join(q) <==> p == q
  {
    if Join(p) == Join(q) {
      SplitJoin(p);
      SplitJoin(q);
    }
  }

  /** A separator inside a cell lets two different records share a key. */
  lemma SeparatorCollision()
    ensures ["a|b", "c"] != ["a", "b|c"]
    ensures Join(["a|b", "c"]) == Join(["a", "b|c"])
  {
    assert ["a|b", "c"][0] != ["a", "b|c"][0];
  }

  /** The string one key column contributes: the cell's string, "" for a null cell
      and "" for a column the table does not have. */
  function KeyPart(t: Table<string>, row: map<string, Cell>, col: string): string {
    if col in t.columns then Str(Lookup(row, col)) else ""
  }

  /** The parts of one row's key, in key-column order. */
  function KeyParts(t: Table<string>, row: map<string, Cell>, keyCols: seq<string>): (r: seq<string>)
    ensures |r| == |keyCols|
  {
    seq(|keyCols|, k requires 0 <= k < |keyCols| => KeyPart(t, row, keyCols[k]))
  }

  /** The key of one row. */
  function RowKey(t: Table<string>, row: map<string, Cell>, keyCols: seq<string>): string {
    Join(KeyParts(t, row, keyCols))
  }

  lemma SplitRowKeys(t: Table<string>, keyCols: seq<string>)
    requires |keyCols| >= 1
    ensures forall i :: 0 <= i < |t.rows| && Clean(KeyParts(t, t.rows[i], keyCols)) ==>
      Split(RowKey(t, t.rows[i], keyCols)) == KeyParts(t, t.rows[i], keyCols)
  {
    forall i | 0 <= i < |t.rows| && Clean(KeyParts(t, t.rows[i], keyCols)) {
      SplitJoin(KeyParts(t, t.rows[i], keyCols));
    }
  }

  /** create_composite_key: one key per row, or an error for an empty key list. */
  function CreateCompositeKey(t: Table<string>, keyCols: seq<string>): (r: Result<seq<string>>)
    ensures r.Err? <==> |keyCols| == 0
    ensures r.Err? ==> r.error == NoKeyColumns
    ensures r.Ok? ==> |r.value| == |t.rows|
    ensures r.Ok? ==> forall i :: 0 <= i < |t.rows| && Clean(KeyParts(t, t.rows[i], keyCols)) ==>
      Split(r.value[i]) == KeyParts(t, t.rows[i], keyCols)
  {
    if |keyCols| == 0 then Err(NoKeyColumns)
    else
      SplitRowKeys(t, keyCols);
      Ok(seq(|t.rows|, i requires 0 <= i < |t.rows| => RowKey(t, t.rows[i], keyCols)))
  }

  /** Two rows with separator-free key cells get the same key exactly when every key
      column reads the same in both. */
  lemma SameKeyIffSameParts(t: Table<string>, keyCols: seq<string>, i: nat, j: nat)
    requires |keyCols| >= 1 && i < |t.rows| && j < |t.rows|
    requires Clean(KeyParts(t, t.rows[i], keyCols)) && Clean(KeyParts(t, t.rows[j], keyCols))
    ensures var keys := CreateCompositeKey(t, keyCols).value;
      keys[i] == keys[j] <==> forall k :: 0 <= k < |keyCols| ==>
        KeyPart(t, t.rows[i], keyCols[k]) == KeyPart(t, t.rows[j], keyCols[k])
  {
    var pi, pj := KeyParts(t, t.rows[i], keyCols), KeyParts(t, t.rows[j], keyCols);
    JoinInjective(pi, pj);
    var keys := CreateCompositeKey(t, keyCols).value;
    assert keys[i] == Join(pi) && keys[j] == Join(pj);
    assert forall k :: 0 <= k < |keyCols| ==>
      pi[k] == KeyPart(t, t.rows[i], keyCols[k]) && pj[k] == KeyPart(t, t.rows[j], keyCols[k]);
    assert pi == pj <==> forall k :: 0 <= k < |keyCols| ==> pi[k] == pj[k];
  }

  /** Two rows whose key columns read the same get the same key, whatever the cells hold. */
  lemma SamePartsSameKey(t: Table<string>, keyCols: seq<string>, i: nat, j: nat)
    requires |keyCols| >= 1 && i < |t.rows| && j < |t.rows|
    requires forall k :: 0 <= k < |keyCols| ==> KeyPart(t, t.rows[i], keyCols[k]) == KeyPart(t, t.rows[j], keyCols[k])
    ensures CreateCompositeKey(t, keyCols).value[i] == CreateCompositeKey(t, keyCols).value[j]
  {
    assert KeyParts(t, t.rows[i], keyCols) == KeyParts(t, t.rows[j], keyCols);
  }

  /** A null key cell contributes "" to its row's key, so the row gets the same key it
      would get with that cell holding the empty string. */
  lemma NullKeyIsEmpty(t: Table<string>, keyCols: seq<string>, k: nat, i: nat)
    requires k < |keyCols| && i < |t.rows| && Lookup(t.rows[i], keyCols[k]) == Null
    ensures KeyParts(t, t.rows[i], keyCols)[k] == ""
    ensures CreateCompositeKey(t, keyCols).value[i] == RowKey(t, t.rows[i][keyCols[k] := Text("")], keyCols)
  {
    var blank := t.rows[i][keyCols[k] := Text("")];
    assert KeyParts(t, t.rows[i], keyCols) == KeyParts(t, blank, keyCols) by {
      forall j | 0 <= j < |keyCols|
        ensures KeyParts(t, t.rows[i], keyCols)[j] == KeyParts(t, blank, keyCols)[j]
      {
        if keyCols[j] == keyCols[k] {
          assert Str(Text("")) == "";
        }
      }
    }
  }

  /** A key column the table lacks contributes "" to every row's key. */
  lemma AbsentColumnContributesEmpty(t: Table<string>, keyCols: seq<string>, k: nat)
    requires k < |keyCols| && keyCols[k] !in t.columns
    ensures forall i :: 0 <= i < |t.rows| ==> KeyParts(t, t.rows[i], keyCols)[k] == ""
  {
  }
}
