/** Python dictionaries with string keys: insertion-ordered, and an assignment to a key
    that is already present overwrites its value but keeps its position. */
module Dicts {
  import opened Seqs

  datatype Dict<V> = Dict(keys: seq<string>, m: map<string, V>)

  /** The order lists every key exactly once. */
  ghost predicate Valid<V>(d: Dict<V>) {
    && Distinct(d.keys)
    && (forall k :: k in d.m <==> k in d.keys)
  }

  /** A valid dictionary lists no key exactly when it maps none. */
  lemma EmptyKeys<V>(d: Dict<V>)
    requires Valid(d)
    ensures |d.keys| == 0 <==> forall c :: c !in d.m
  {
    if |d.keys| > 0 {
      assert d.keys[0] in d.m;
    }
  }

  function Empty<V>(): (r: Dict<V>)
    ensures Valid(r) && |r.keys| == 0
  {
    Dict([], map[])
  }

  /** `d[k] = v`. */
  function Put<V>(d: Dict<V>, k: string, v: V): (r: Dict<V>)
    ensures Valid(d) ==> Valid(r)
    ensures r.m == d.m[k := v]
    ensures r.keys == if k in d.m then d.keys else d.keys + [k]
  {
    if k in d.m then Dict(d.keys, d.m[k := v]) else Dict(d.keys + [k], d.m[k := v])
  }

  /** The entries among the first `n` in order whose key satisfies `keep`, in order. */
  function FilterUpTo<V>(d: Dict<V>, keep: string -> bool, n: nat): (r: Dict<V>)
    requires Valid(d) && n <= |d.keys|
    ensures Valid(r)
    ensures forall k :: k in r.m <==> k in d.keys[..n] && keep(k)
    ensures forall k :: k in r.m ==> r.m[k] == d.m[k]
    decreases n
  {
    if n == 0 then Empty()
    else
      var prev := FilterUpTo(d, keep, n - 1);
      var k := d.keys[n - 1];
      assert d.keys[..n] == d.keys[..n - 1] + [k];
      if keep(k) then Put(prev, k, d.m[k]) else prev
  }

  /** `{k: v for k, v in d.items() if keep(k)}`. */
  function Filter<V>(d: Dict<V>, keep: string -> bool): (r: Dict<V>)
    requires Valid(d)
    ensures Valid(r)
    ensures forall k :: k in r.m <==> k in d.m && keep(k)
    ensures forall k :: k in r.m ==> r.m[k] == d.m[k]
  {
    assert d.keys[..|d.keys|] == d.keys;
    FilterUpTo(d, keep, |d.keys|)
  }
}
