/** The full outer equi-join on composite keys (the pd.merge of perform_reconciliation),
    with every joined row classified as both, left_only or right_only. */
module Matcher {
  import opened Seqs

  /** A `both` row of the join: a left position, a right position and their shared key. */
  datatype Match = Match(left: nat, right: nat, key: string)

  /** The join, split by its indicator column: matched pairs, and the positions of the
      left rows and of the right rows that found no partner. */
  datatype Joined = Joined(both: seq<Match>, leftOnly: seq<nat>, rightOnly: seq<nat>)

  predicate Precedes(x: Match, y: Match) {
    x.left < y.left || (x.left == y.left && x.right < y.right)
  }

  /** Pairs in row-major order; in particular no pair is listed twice. */
  predicate AscendingPairs(s: seq<Match>) {
    forall a, b :: 0 <= a < b < |s| ==> Precedes(s[a], s[b])
  }

  /** The partners of left row `i`, whose key is `key`, among the first `n` right keys. */
  function RowMatches(i: nat, key: string, k2: seq<string>, n: nat): seq<Match>
    requires n <= |k2|
    decreases n
  {
    if n == 0 then []
    else if k2[n - 1] == key then RowMatches(i, key, k2, n - 1) + [Match(i, n - 1, key)]
    else RowMatches(i, key, k2, n - 1)
  }

  /** The partners are exactly the right rows with the key, in right-row order. */
  lemma {:induction false} RowMatchesSpec(i: nat, key: string, k2: seq<string>, n: nat)
    requires n <= |k2|
    ensures forall x :: x in RowMatches(i, key, k2, n) <==> x.left == i && x.right < n && k2[x.right] == key && x.key == key
    ensures AscendingPairs(RowMatches(i, key, k2, n))
    decreases n
  {
    if n > 0 {
      RowMatchesSpec(i, key, k2, n - 1);
      var prev := RowMatches(i, key, k2, n - 1);
      if k2[n - 1] == key {
        var cur := prev + [Match(i, n - 1, key)];
        assert RowMatches(i, key, k2, n) == cur;
        forall a, b | 0 <= a < b < |cur|
          ensures Precedes(cur[a], cur[b])
        {
          if b == |prev| {
            assert cur[a] in prev;
          }
        }
      }
    }
  }

  /** Left row `i` has one partner per right row with its key. */
  lemma {:induction false} RowMatchesCount(i: nat, key: string, k2: seq<string>, n: nat)
    requires n <= |k2|
    ensures |RowMatches(i, key, k2, n)| == multiset(k2[..n])[key]
    decreases n
  {
    if n > 0 {
      RowMatchesCount(i, key, k2, n - 1);
      assert k2[..n] == k2[..n - 1] + [k2[n - 1]];
    }
  }

  /** Pairs of earlier left rows followed by pairs of a later one stay in row-major order. */
  lemma ConcatAscending(prev: seq<Match>, row: seq<Match>, i: nat)
    requires AscendingPairs(prev) && AscendingPairs(row)
    requires forall x :: x in prev ==> x.left < i
    requires forall x :: x in row ==> x.left == i
    ensures AscendingPairs(prev + row)
  {
    forall a, b | 0 <= a < b < |prev + row|
      ensures Precedes((prev + row)[a], (prev + row)[b])
    {
      if b >= |prev| && a < |prev| {
        assert prev[a] in prev;
        assert row[b - |prev|] in row;
      }
    }
  }

  /** Every pair of a left row among the first `n` and a right row with the same key, left
      row by left row. */
  function BothPairs(k1: seq<string>, k2: seq<string>, n: nat): seq<Match>
    requires n <= |k1|
    decreases n
  {
    if n == 0 then [] else BothPairs(k1, k2, n - 1) + RowMatches(n - 1, k1[n - 1], k2, |k2|)
  }

  /** The pairs are exactly the same-key pairs of a left row among the first `n` and any
      right row, in row-major order. */
  lemma {:induction false} BothPairsSpec(k1: seq<string>, k2: seq<string>, n: nat)
    requires n <= |k1|
    ensures forall x :: x in BothPairs(k1, k2, n) <==>
      x.left < n && x.right < |k2| && k1[x.left] == k2[x.right] && x.key == k1[x.left]
    ensures AscendingPairs(BothPairs(k1, k2, n))
    decreases n
  {
    if n > 0 {
      BothPairsSpec(k1, k2, n - 1);
      var prev := BothPairs(k1, k2, n - 1);
      var row := RowMatches(n - 1, k1[n - 1], k2, |k2|);
      var cur := BothPairs(k1, k2, n);
      assert cur == prev + row;
      RowMatchesSpec(n - 1, k1[n - 1], k2, |k2|);
      forall x
        ensures x in cur <==> x.left < n && x.right < |k2| && k1[x.left] == k2[x.right] && x.key == k1[x.left]
      {
        assert x in cur <==> x in prev || x in row;
      }
      ConcatAscending(prev, row, n - 1);
    }
  }

  /** Per position of `k1`, whether its key is missing from `k2`. */
  function MissingFrom(k1: seq<string>, k2: seq<string>): (r: seq<bool>)
    ensures |r| == |k1|
    ensures forall i :: 0 <= i < |k1| ==> r[i] == (k1[i] !in k2)
  {
    seq(|k1|, i requires 0 <= i < |k1| => k1[i] !in k2)
  }

  /** The positions among the first `n` of `k1` whose key does not occur in `k2`. */
  function Unmatched(k1: seq<string>, k2: seq<string>, n: nat): (r: seq<nat>)
    requires n <= |k1|
    ensures forall i: nat :: i in r <==> i < n && k1[i] !in k2
    ensures forall a :: 0 <= a < |r| ==> r[a] < n
    ensures Ascending(r)
  {
    Positions(MissingFrom(k1, k2), n)
  }

  /** pd.merge(how='outer', indicator=True) on the key columns `k1` and `k2`. */
  function OuterJoin(k1: seq<string>, k2: seq<string>): Joined {
    Joined(BothPairs(k1, k2, |k1|), Unmatched(k1, k2, |k1|), Unmatched(k2, k1, |k2|))
  }

  /** Join rows of each kind point at real rows of their side. */
  lemma JoinPositionsInRange(k1: seq<string>, k2: seq<string>)
    ensures var j := OuterJoin(k1, k2);
      && (forall x :: x in j.both ==> x.left < |k1| && x.right < |k2|)
      && (forall i: nat :: i in j.leftOnly ==> i < |k1|)
      && (forall i: nat :: i in j.rightOnly ==> i < |k2|)
  {
    BothPairsSpec(k1, k2, |k1|);
  }

  /** A left_only row has a key absent from the right side and is in no `both` pair. */
  lemma LeftOnlyUnpaired(k1: seq<string>, k2: seq<string>, i: nat)
    requires i in OuterJoin(k1, k2).leftOnly
    ensures i < |k1| && k1[i] !in k2
    ensures forall x :: x in OuterJoin(k1, k2).both ==> x.left != i
  {
    BothPairsSpec(k1, k2, |k1|);
  }

  /** A right_only row has a key absent from the left side and is in no `both` pair. */
  lemma RightOnlyUnpaired(k1: seq<string>, k2: seq<string>, j: nat)
    requires j in OuterJoin(k1, k2).rightOnly
    ensures j < |k2| && k2[j] !in k1
    ensures forall x :: x in OuterJoin(k1, k2).both ==> x.right != j
  {
    BothPairsSpec(k1, k2, |k1|);
  }

  /** A left row is left_only exactly when it is in no `both` pair, and the same for a
      right row: every row of either side lands in exactly one kind of join row. */
  lemma JoinPartition(k1: seq<string>, k2: seq<string>)
    ensures var j := OuterJoin(k1, k2);
      forall i: nat :: i < |k1| ==> (i in j.leftOnly <==> !exists x :: x in j.both && x.left == i)
    ensures var j := OuterJoin(k1, k2);
      forall i: nat :: i < |k2| ==> (i in j.rightOnly <==> !exists x :: x in j.both && x.right == i)
  {
    var j := OuterJoin(k1, k2);
    BothPairsSpec(k1, k2, |k1|);
    forall i: nat | i < |k1| && i !in j.leftOnly
      ensures exists x :: x in j.both && x.left == i
    {
      var r :| 0 <= r < |k2| && k2[r] == k1[i];
      assert Match(i, r, k1[i]) in j.both;
    }
    forall i: nat | i < |k2| && i !in j.rightOnly
      ensures exists x :: x in j.both && x.right == i
    {
      var l :| 0 <= l < |k1| && k1[l] == k2[i];
      assert Match(l, i, k2[i]) in j.both;
    }
  }

  /** How many matches carry key `key`. */
  function KeyCount(ms: seq<Match>, key: string): nat
    decreases |ms|
  {
    if |ms| == 0 then 0
    else KeyCount(ms[..|ms| - 1], key) + (if ms[|ms| - 1].key == key then 1 else 0)
  }

  lemma {:induction false} KeyCountAppend(a: seq<Match>, b: seq<Match>, key: string)
    ensures KeyCount(a + b, key) == KeyCount(a, key) + KeyCount(b, key)
    decreases |b|
  {
    if |b| == 0 {
      assert a + b == a;
    } else {
      var b' := b[..|b| - 1];
      assert (a + b)[..|a + b| - 1] == a + b';
      assert (a + b)[|a + b| - 1] == b[|b| - 1];
      KeyCountAppend(a, b', key);
    }
  }

  /** A run of matches that all carry one key counts fully for that key and not at all
      for any other. */
  lemma {:induction false} KeyCountUniform(ms: seq<Match>, k: string, key: string)
    requires forall x :: x in ms ==> x.key == k
    ensures KeyCount(ms, key) == if k == key then |ms| else 0
    decreases |ms|
  {
    if |ms| > 0 {
      assert ms[|ms| - 1] in ms;
      assert forall x :: x in ms[..|ms| - 1] ==> x in ms;
      KeyCountUniform(ms[..|ms| - 1], k, key);
    }
  }

  /** The number of `both` rows with `key` the first `n` left rows should produce: every
      left row with that key pairs with every right row with it. */
  function ExpectedPairs(k1: seq<string>, k2: seq<string>, key: string, n: nat): nat
    requires n <= |k1|
  {
    if n == 0 then 0
    else ExpectedPairs(k1, k2, key, n - 1) + if k1[n - 1] == key then multiset(k2)[key] else 0
  }

  lemma {:induction false} PairsAsExpected(k1: seq<string>, k2: seq<string>, key: string, n: nat)
    requires n <= |k1|
    ensures KeyCount(BothPairs(k1, k2, n), key) == ExpectedPairs(k1, k2, key, n)
    decreases n
  {
    if n > 0 {
      PairsAsExpected(k1, k2, key, n - 1);
      CartesianStep(k1, k2, key, n);
    }
  }

  /** Cartesian expansion: a key shared by `a` left rows and `b` right rows yields
      exactly a * b `both` rows. */
  lemma {:induction false} CartesianCount(k1: seq<string>, k2: seq<string>, key: string, n: nat)
    requires n <= |k1|
    ensures ExpectedPairs(k1, k2, key, n) == Times(multiset(k1[..n])[key], multiset(k2)[key])
    decreases n
  {
    if n > 0 {
      CartesianCount(k1, k2, key, n - 1);
      CountSnoc(k1, n, key);
    }
  }

  /** Left row n - 1 adds one `both` row per right row with its key. */
  lemma CartesianStep(k1: seq<string>, k2: seq<string>, key: string, n: nat)
    requires 0 < n <= |k1|
    ensures KeyCount(BothPairs(k1, k2, n), key) ==
      KeyCount(BothPairs(k1, k2, n - 1), key) + if k1[n - 1] == key then multiset(k2)[key] else 0
  {
    var prev := BothPairs(k1, k2, n - 1);
    var k := k1[n - 1];
    var row := RowMatches(n - 1, k, k2, |k2|);
    assert BothPairs(k1, k2, n) == prev + row;
    RowMatchesSpec(n - 1, k, k2, |k2|);
    RowMatchesCount(n - 1, k, k2, |k2|);
    CountWhole(k2, k);
    AppendUniformCount(prev, row, k, key);
  }

  /** Appending matches that all carry key `k` adds their number to the count of `k` and
      nothing to any other key's. */
  lemma AppendUniformCount(prev: seq<Match>, row: seq<Match>, k: string, key: string)
    requires forall x :: x in row ==> x.key == k
    ensures KeyCount(prev + row, key) == KeyCount(prev, key) + if k == key then |row| else 0
  {
    KeyCountAppend(prev, row, key);
    KeyCountUniform(row, k, key);
  }

  lemma CountSnoc(s: seq<string>, n: nat, key: string)
    requires 0 < n <= |s|
    ensures multiset(s[..n])[key] == multiset(s[..n - 1])[key] + if s[n - 1] == key then 1 else 0
  {
    assert s[..n] == s[..n - 1] + [s[n - 1]];
  }

  lemma CountWhole(s: seq<string>, key: string)
    ensures multiset(s[..|s|])[key] == multiset(s)[key]
  {
    assert s[..|s|] == s;
  }

  /** a * b as repeated addition. */
  function Times(a: nat, b: nat): nat {
    if a == 0 then 0 else Times(a - 1, b) + b
  }

  lemma {:induction false} TimesIsProduct(a: nat, b: nat)
    ensures Times(a, b) == a * b
  {
    if a > 0 {
      TimesIsProduct(a - 1, b);
    }
  }

  /** For each key, the join holds (left rows with that key) * (right rows with that key)
      `both` rows. */
  lemma {:induction false} JoinCartesian(k1: seq<string>, k2: seq<string>, key: string)
    ensures KeyCount(OuterJoin(k1, k2).both, key) == multiset(k1)[key] * multiset(k2)[key]
  {
    PairsAsExpected(k1, k2, key, |k1|);
    CartesianCount(k1, k2, key, |k1|);
    assert k1[..|k1|] == k1;
    TimesIsProduct(multiset(k1)[key], multiset(k2)[key]);
  }
}
