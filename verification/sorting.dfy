/**
  Ordering and distinctness of sequences, and the stable sort the model uses
  for JavaScript's `Array.prototype.sort`.

  A JavaScript comparator that subtracts the key of its second argument from
  the key of its first orders elements ascending by that key; the engine's sort is stable, so elements with
  equal keys keep their relative order. `SortBy` is a stable insertion sort
  by such a key.
 */
module Sorting {

  /** `s` is in non-decreasing order of `key`. */
  ghost predicate SortedBy<T>(s: seq<T>, key: T -> int) {
    forall i, j :: 0 <= i < j < |s| ==> key(s[i]) <= key(s[j])
  }

  /** No two positions of `s` carry the same `id`. */
  ghost predicate DistinctBy<T, U>(s: seq<T>, id: T -> U) {
    forall i, j :: 0 <= i < j < |s| ==> id(s[i]) != id(s[j])
  }

  /** No element of `s` carries the identity `v`. */
  ghost predicate IdAbsent<T, U>(s: seq<T>, id: T -> U, v: U) {
    forall i :: 0 <= i < |s| ==> id(s[i]) != v
  }

  /**
    Inserts `x` into `t` in front of the first element whose key exceeds
    `key(x)`: on a sorted `t` that is after every element with an equal or
    smaller key, which is where a stable sort of `t + [x]` puts it.
   */
  function InsertBy<T>(t: seq<T>, x: T, key: T -> int): (r: seq<T>)
    ensures multiset(r) == multiset(t) + multiset{x}
  {
    if |t| == 0 then [x]
    else if key(x) < key(t[0]) then [x] + t
    else
      assert t == [t[0]] + t[1..];
      [t[0]] + InsertBy(t[1..], x, key)
  }

  /** Insertion into a sorted sequence yields a sorted sequence. */
  lemma {:induction false} InsertBySorted<T>(t: seq<T>, x: T, key: T -> int)
    requires SortedBy(t, key)
    ensures SortedBy(InsertBy(t, x, key), key)
  {
    if |t| > 0 && key(t[0]) <= key(x) {
      var rest := InsertBy(t[1..], x, key);
      InsertBySorted(t[1..], x, key);
      assert t == [t[0]] + t[1..];
      forall k | 0 <= k < |rest|
        ensures key(t[0]) <= key(rest[k])
      {
        assert rest[k] in multiset(t[1..]) + multiset{x};
        if rest[k] != x {
          assert rest[k] in t[1..];
        }
      }
    }
  }

  /** Stable insertion sort of `s`, ascending by `key`. */
  function SortBy<T>(s: seq<T>, key: T -> int): (r: seq<T>)
    ensures multiset(r) == multiset(s)
  {
    if |s| == 0 then []
    else
      var init := s[..|s| - 1];
      assert s == init + [s[|s| - 1]];
      InsertBy(SortBy(init, key), s[|s| - 1], key)
  }

  /** The result of `SortBy` is sorted. */
  lemma {:induction false} SortBySorted<T>(s: seq<T>, key: T -> int)
    ensures SortedBy(SortBy(s, key), key)
  {
    if |s| > 0 {
      SortBySorted(s[..|s| - 1], key);
      InsertBySorted(SortBy(s[..|s| - 1], key), s[|s| - 1], key);
    }
  }

  /** Inserting an element whose key is at least every key of `t` appends it. */
  lemma {:induction false} InsertByLast<T>(t: seq<T>, x: T, key: T -> int)
    requires forall i :: 0 <= i < |t| ==> key(t[i]) <= key(x)
    ensures InsertBy(t, x, key) == t + [x]
  {
    if |t| > 0 {
      InsertByLast(t[1..], x, key);
      assert [t[0]] + (t[1..] + [x]) == t + [x];
    }
  }

  /** Sorting an already sorted sequence leaves it as it is. */
  lemma {:induction false} SortBySortedIsIdentity<T>(s: seq<T>, key: T -> int)
    requires SortedBy(s, key)
    ensures SortBy(s, key) == s
  {
    if |s| > 0 {
      var init := s[..|s| - 1];
      assert SortedBy(init, key);
      SortBySortedIsIdentity(init, key);
      InsertByLast(init, s[|s| - 1], key);
      assert init + [s[|s| - 1]] == s;
    }
  }

  /**
    Appending one element to a sorted sequence and re-sorting the whole
    sequence is the same as inserting that element at its place.
   */
  lemma SortByAppendIsInsert<T>(t: seq<T>, x: T, key: T -> int)
    requires SortedBy(t, key)
    ensures SortBy(t + [x], key) == InsertBy(t, x, key)
  {
    assert (t + [x])[..|t|] == t;
    SortBySortedIsIdentity(t, key);
  }

  /** Inserting an element with a fresh identity keeps identities distinct. */
  lemma {:induction false} InsertByKeepsDistinct<T, U>(t: seq<T>, x: T, key: T -> int, id: T -> U)
    requires DistinctBy(t, id)
    requires IdAbsent(t, id, id(x))
    ensures DistinctBy(InsertBy(t, x, key), id)
  {
    if |t| > 0 && key(t[0]) <= key(x) {
      var rest := InsertBy(t[1..], x, key);
      InsertByKeepsDistinct(t[1..], x, key, id);
      var r := [t[0]] + rest;
      assert t == [t[0]] + t[1..];
      forall k | 0 <= k < |rest|
        ensures id(t[0]) != id(rest[k])
      {
        assert rest[k] in multiset(t[1..]) + multiset{x};
        if rest[k] != x {
          assert rest[k] in t[1..];
        }
      }
    }
  }

  /** Sorting keeps identities distinct. */
  lemma {:induction false} SortByKeepsDistinct<T, U>(s: seq<T>, key: T -> int, id: T -> U)
    requires DistinctBy(s, id)
    ensures DistinctBy(SortBy(s, key), id)
  {
    if |s| > 0 {
      var init := s[..|s| - 1];
      var last := s[|s| - 1];
      SortByKeepsDistinct(init, key, id);
      var sorted := SortBy(init, key);
      forall k | 0 <= k < |sorted|
        ensures id(sorted[k]) != id(last)
      {
        assert sorted[k] in multiset(init);
      }
      InsertByKeepsDistinct(sorted, last, key, id);
    }
  }
}
