/**
  A JavaScript `Map`: its entries are kept in insertion order, which is the
  order `Array.from(map)` lists them in. The model is the sequence of
  key/value pairs in that order.
 */
module OrderedMap {
  import opened Wrappers
  import opened Sorting

  type OrderedMap<K, V> = seq<(K, V)>

  function KeyOf<K, V>(entry: (K, V)): K {
    entry.0
  }

  /** Keys are unique, as they always are in a JavaScript `Map`. */
  ghost predicate DistinctKeys<K, V>(m: OrderedMap<K, V>) {
    DistinctBy(m, KeyOf)
  }

  /** `map.get(k)`: the value stored under `k`, if any. */
  function Get<K(==), V>(m: OrderedMap<K, V>, k: K): (r: Option<V>)
    ensures r.None? <==> forall i :: 0 <= i < |m| ==> m[i].0 != k
    ensures r.Some? ==> exists i :: 0 <= i < |m| && m[i] == (k, r.value)
  {
    if |m| == 0 then None
    else if m[0].0 == k then Some(m[0].1)
    else
      var r := Get(m[1..], k);
      assert r.Some? ==> exists i :: 0 <= i < |m[1..]| && m[1..][i] == (k, r.value);
      r
  }

  /**
    `map.set(k, v)`: an existing key keeps its place and gets the new value;
    a new key is appended after all others.
   */
  function Set<K(==, !new), V>(m: OrderedMap<K, V>, k: K, v: V): (r: OrderedMap<K, V>)
    ensures Get(r, k) == Some(v)
    ensures forall j :: j != k ==> Get(r, j) == Get(m, j)
  {
    if |m| == 0 then [(k, v)]
    else if m[0].0 == k then
      assert ([(k, v)] + m[1..])[1..] == m[1..];
      [(k, v)] + m[1..]
    else
      var rest := Set(m[1..], k, v);
      assert ([m[0]] + rest)[1..] == rest;
      [m[0]] + rest
  }

  /**
    Where `Set` puts the entry: a new key goes last; for a present key every
    key stays at its position.
   */
  lemma {:induction false} SetPlacement<K(!new), V>(m: OrderedMap<K, V>, k: K, v: V)
    ensures Get(m, k).None? ==> Set(m, k, v) == m + [(k, v)]
    ensures Get(m, k).Some? ==>
      |Set(m, k, v)| == |m| && forall i :: 0 <= i < |m| ==> Set(m, k, v)[i].0 == m[i].0
  {
    if |m| > 0 && m[0].0 != k {
      SetPlacement(m[1..], k, v);
      assert m == [m[0]] + m[1..];
    }
  }

  /** With unique keys, every entry is what `Get` finds under its key. */
  lemma GetEntry<K, V>(m: OrderedMap<K, V>, i: int)
    requires DistinctKeys(m)
    requires 0 <= i < |m|
    ensures Get(m, m[i].0) == Some(m[i].1)
  {
    var r := Get(m, m[i].0);
    var j :| 0 <= j < |m| && m[j] == (m[i].0, r.value);
    assert KeyOf(m[j]) == KeyOf(m[i]);
  }

  /** `Set` keeps keys unique. */
  lemma SetKeepsDistinct<K(!new), V>(m: OrderedMap<K, V>, k: K, v: V)
    requires DistinctKeys(m)
    ensures DistinctKeys(Set(m, k, v))
  {
    var r := Set(m, k, v);
    SetPlacement(m, k, v);
    if Get(m, k).None? {
      forall i, j | 0 <= i < j < |r|
        ensures KeyOf(r[i]) != KeyOf(r[j])
      {
        if j < |m| {
          assert KeyOf(m[i]) != KeyOf(m[j]);
        }
      }
    } else {
      forall i, j | 0 <= i < j < |r|
        ensures KeyOf(r[i]) != KeyOf(r[j])
      {
        assert KeyOf(m[i]) != KeyOf(m[j]);
      }
    }
  }

  /**
    Two maps with unique keys and the same entries, in whatever order, answer
    every `Get` alike.
   */
  lemma {:induction false} PermutedGet<K, V>(m: OrderedMap<K, V>, m': OrderedMap<K, V>, k: K)
    requires DistinctKeys(m) && DistinctKeys(m')
    requires multiset(m) == multiset(m')
    ensures Get(m', k) == Get(m, k)
  {
    var r := Get(m, k);
    if r.Some? {
      var i :| 0 <= i < |m| && m[i] == (k, r.value);
      assert m[i] in multiset(m');
      var j :| 0 <= j < |m'| && m'[j] == m[i];
      GetEntry(m', j);
    } else {
      forall j | 0 <= j < |m'|
        ensures m'[j].0 != k
      {
        assert m'[j] in multiset(m);
      }
    }
  }
}
