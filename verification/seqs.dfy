/** Small predicates and filters over sequences, shared by the other modules. */
module Seqs {

  /** No element occurs twice. */
  predicate Distinct<T(==)>(s: seq<T>) {
    forall a, b :: 0 <= a < b < |s| ==> s[a] != s[b]
  }

  /** In a sequence without repeats, an element does not occur before its position. */
  lemma DistinctLast<T>(s: seq<T>, n: nat)
    requires Distinct(s) && 0 < n <= |s|
    ensures s[n - 1] !in s[..n - 1]
  {
  }

  lemma TakeSnoc<T>(s: seq<T>, n: nat)
    requires 0 < n <= |s|
    ensures s[..n] == s[..n - 1] + [s[n - 1]]
  {
  }

  /** Strictly increasing positions: each position is listed at most once, in order. */
  predicate Ascending(s: seq<nat>) {
    forall a, b :: 0 <= a < b < |s| ==> s[a] < s[b]
  }

  /** Appending a position above every listed one keeps the list ascending and bounded. */
  lemma AscendingSnoc(s: seq<nat>, x: nat)
    requires Ascending(s) && forall a :: 0 <= a < |s| ==> s[a] < x
    ensures Ascending(s + [x])
    ensures forall a :: 0 <= a < |s + [x]| ==> (s + [x])[a] <= x
    ensures forall i :: i in s + [x] <==> i in s || i == x
  {
  }

  /** The positions below `n` whose flag is set, in ascending order. */
  function Positions(flags: seq<bool>, n: nat): (r: seq<nat>)
    requires n <= |flags|
    ensures forall i: nat :: i in r <==> i < n && flags[i]
    ensures forall a :: 0 <= a < |r| ==> r[a] < n
    ensures Ascending(r)
    ensures |r| <= n
    decreases n
  {
    if n == 0 then []
    else
      var prev := Positions(flags, n - 1);
      if flags[n - 1] then
        AscendingSnoc(prev, n - 1);
        prev + [n - 1]
      else prev
  }

  /** `df[c] = ...` on a table: a new column goes last, an existing one keeps its place. */
  function Append(cols: seq<string>, c: string): (r: seq<string>)
    ensures forall x :: x in r <==> x in cols || x == c
  {
    if c in cols then cols else cols + [c]
  }

  /** The sequence with every occurrence of `x` removed, order kept. */
  function Without(s: seq<string>, x: string): (r: seq<string>)
    ensures forall y :: y in r <==> y in s && y != x
    ensures |r| <= |s|
  {
    if |s| == 0 then []
    else if s[|s| - 1] == x then Without(s[..|s| - 1], x)
    else Without(s[..|s| - 1], x) + [s[|s| - 1]]
  }
}
