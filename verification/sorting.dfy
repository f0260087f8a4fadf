/** Stable sorting by a real-valued key, highest key first: the behaviour of
    Python's `list.sort(key=..., reverse=True)`, which keeps equal-key
    elements in their original order. Modelled as insertion sort on
    sequences. */
module Sorting {

  /** Non-increasing by `key`. */
  predicate SortedDesc<T>(xs: seq<T>, key: T -> real) {
    forall i, j :: 0 <= i < j < |xs| ==> key(xs[i]) >= key(xs[j])
  }

  /** The elements of `xs` whose key is `k`, in their order in `xs`. */
  function KeyClass<T>(xs: seq<T>, key: T -> real, k: real): seq<T> {
    if |xs| == 0 then []
    else (if key(xs[0]) == k then [xs[0]] else []) + KeyClass(xs[1..], key, k)
  }

  /** Inserts `x` before the first element whose key is not above its own. */
  function Insert<T(==)>(x: T, xs: seq<T>, key: T -> real): (r: seq<T>)
    requires SortedDesc(xs, key)
    ensures |r| == |xs| + 1
    ensures forall i :: 0 <= i < |r| ==> r[i] == x || r[i] in xs
    ensures multiset(r) == multiset(xs) + multiset{x}
    ensures SortedDesc(r, key)
  {
    if |xs| == 0 then [x]
    else if key(x) >= key(xs[0]) then [x] + xs
    else
      var t := xs[1..];
      SortedDescTail(xs, key);
      var rest := Insert(x, t, key);
      HeadAbove(xs, x, rest, key);
      SortedCons(xs[0], rest, key);
      assert xs == [xs[0]] + t;
      [xs[0]] + rest
  }

  /** What is inserted below the head of a sorted sequence stays below
      it. */
  lemma HeadAbove<T>(xs: seq<T>, x: T, rest: seq<T>, key: T -> real)
    requires SortedDesc(xs, key) && |xs| > 0 && key(x) < key(xs[0])
    requires forall i :: 0 <= i < |rest| ==> rest[i] == x || rest[i] in xs[1..]
    ensures forall i :: 0 <= i < |rest| ==> key(xs[0]) >= key(rest[i])
  {
    forall i | 0 <= i < |rest| ensures key(xs[0]) >= key(rest[i]) {
      if rest[i] != x {
        var j :| 0 <= j < |xs[1..]| && xs[1..][j] == rest[i];
        assert xs[1..][j] == xs[j + 1];
      }
    }
  }

  /** A sorted sequence stays sorted behind an element whose key is at
      least all of its keys. */
  lemma SortedCons<T>(h: T, rest: seq<T>, key: T -> real)
    requires SortedDesc(rest, key)
    requires forall i :: 0 <= i < |rest| ==> key(h) >= key(rest[i])
    ensures SortedDesc([h] + rest, key)
  {
    var r := [h] + rest;
    forall i, j | 0 <= i < j < |r| ensures key(r[i]) >= key(r[j]) {
      assert r[j] == rest[j - 1];
      if i > 0 {
        assert r[i] == rest[i - 1];
      }
    }
  }

  /** Stable insertion sort, highest key first. */
  function SortDesc<T(==)>(xs: seq<T>, key: T -> real): (r: seq<T>)
    ensures |r| == |xs|
    ensures multiset(r) == multiset(xs)
    ensures SortedDesc(r, key)
  {
    if |xs| == 0 then []
    else
      assert xs == [xs[0]] + xs[1..];
      Insert(xs[0], SortDesc(xs[1..], key), key)
  }

  lemma KeyClassCons<T>(x: T, xs: seq<T>, key: T -> real, k: real)
    ensures KeyClass([x] + xs, key, k) == (if key(x) == k then [x] else []) + KeyClass(xs, key, k)
  {
    assert ([x] + xs)[1..] == xs;
  }

  lemma SortedDescTail<T>(xs: seq<T>, key: T -> real)
    requires SortedDesc(xs, key) && |xs| > 0
    ensures SortedDesc(xs[1..], key)
  {
    var t := xs[1..];
    forall i, j | 0 <= i < j < |t| ensures key(t[i]) >= key(t[j]) {
      assert t[i] == xs[i + 1] && t[j] == xs[j + 1];
    }
  }

  /** Two elements with different keys can be swapped without changing
      any key class. */
  lemma KeyClassSwap<T>(x: T, h: T, t: seq<T>, key: T -> real, k: real)
    requires key(x) != key(h)
    ensures (if key(h) == k then [h] else []) + KeyClass([x] + t, key, k) == KeyClass([x] + ([h] + t), key, k)
  {
    var cx := if key(x) == k then [x] else [];
    var ch := if key(h) == k then [h] else [];
    var kt := KeyClass(t, key, k);
    KeyClassCons(x, t, key, k);
    KeyClassCons(x, [h] + t, key, k);
    KeyClassCons(h, t, key, k);
    if cx == [] {
      assert ch + (cx + kt) == ch + kt == cx + (ch + kt);
    } else {
      assert ch == [];
      assert ch + (cx + kt) == cx + kt == cx + (ch + kt);
    }
  }

  /** Inserting `x` keeps every key class in the order it has when `x` is
      put in front. */
  lemma {:induction false} InsertStable<T>(x: T, xs: seq<T>, key: T -> real, k: real)
    requires SortedDesc(xs, key)
    ensures KeyClass(Insert(x, xs, key), key, k) == KeyClass([x] + xs, key, k)
  {
    if |xs| > 0 && key(x) < key(xs[0]) {
      var h := xs[0];
      var t := xs[1..];
      SortedDescTail(xs, key);
      var ins := Insert(x, t, key);
      assert Insert(x, xs, key) == [h] + ins;
      InsertStable(x, t, key, k);
      KeyClassCons(h, ins, key, k);
      KeyClassSwap(x, h, t, key, k);
      assert xs == [h] + t;
    } else {
      assert Insert(x, xs, key) == [x] + xs;
    }
  }

  /** The sort is stable: elements with equal keys keep their relative
      order. */
  lemma {:induction false} SortDescStable<T>(xs: seq<T>, key: T -> real, k: real)
    ensures KeyClass(SortDesc(xs, key), key, k) == KeyClass(xs, key, k)
  {
    if |xs| > 0 {
      var s := SortDesc(xs[1..], key);
      SortDescStable(xs[1..], key, k);
      InsertStable(xs[0], s, key, k);
      KeyClassCons(xs[0], s, key, k);
      KeyClassCons(xs[0], xs[1..], key, k);
      assert xs == [xs[0]] + xs[1..];
    }
  }

  /** Every element of a sorted sequence's prefix has a key at least that of
      every element after it. */
  lemma PrefixDominates<T>(xs: seq<T>, key: T -> real, n: nat)
    requires SortedDesc(xs, key)
    requires n <= |xs|
    ensures forall i, j :: 0 <= i < n <= j < |xs| ==> key(xs[i]) >= key(xs[j])
  {
  }
}
