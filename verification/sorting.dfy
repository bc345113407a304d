/** The ordering every report and dashboard list relies on:
    `Array.prototype.sort` with a comparator of the form
    `(a, b) => key(a) - key(b)`. Since ECMAScript 2019 that sort is stable, so
    its result is the stable ascending sort by `key`; a descending order is
    the ascending order of the negated key. */
module Sorting {

  /** `xs` is in ascending `key` order. */
  ghost predicate SortedBy<T>(xs: seq<T>, key: T -> int) {
    forall i, j :: 0 <= i < j < |xs| ==> key(xs[i]) <= key(xs[j])
  }

  /** The elements of `xs` whose key is `k`, in their order in `xs`. */
  function WithKey<T>(xs: seq<T>, key: T -> int, k: int): seq<T>
    decreases |xs|
  {
    if xs == [] then []
    else (if key(xs[0]) == k then [xs[0]] else []) + WithKey(xs[1..], key, k)
  }

  /** Inserts `x` in front of the first element whose key is at least
      `key(x)`: `x` stays ahead of every element of equal key. */
  function Insert<T(==)>(x: T, ys: seq<T>, key: T -> int): (r: seq<T>)
    requires SortedBy(ys, key)
    ensures |r| == |ys| + 1
    ensures forall j :: 0 <= j < |r| ==> r[j] == x || r[j] in ys
    ensures SortedBy(r, key)
    ensures multiset(r) == multiset(ys) + multiset{x}
    decreases |ys|
  {
    if ys == [] then [x]
    else if key(x) <= key(ys[0]) then
      InsertFront(x, ys, key);
      [x] + ys
    else
      var rest := Insert(x, ys[1..], key);
      InsertBehind(x, ys, key, rest);
      [ys[0]] + rest
  }

  /** `x` goes first when it does not outrank the head. */
  lemma InsertFront<T>(x: T, ys: seq<T>, key: T -> int)
    requires SortedBy(ys, key) && ys != [] && key(x) <= key(ys[0])
    ensures SortedBy([x] + ys, key)
    ensures multiset([x] + ys) == multiset(ys) + multiset{x}
    ensures forall j :: 0 <= j < |[x] + ys| ==> ([x] + ys)[j] == x || ([x] + ys)[j] in ys
  {
    var r := [x] + ys;
    forall i, j | 0 <= i < j < |r| ensures key(r[i]) <= key(r[j]) {
      assert r[j] == ys[j - 1];
      if i > 0 {
        assert r[i] == ys[i - 1];
      }
    }
    forall j | 0 <= j < |r| ensures r[j] == x || r[j] in ys {
      if j > 0 {
        assert r[j] == ys[j - 1];
      }
    }
  }

  /** The head stays first when `x` outranks it and the rest has `x`
      inserted. */
  lemma InsertBehind<T>(x: T, ys: seq<T>, key: T -> int, rest: seq<T>)
    requires SortedBy(ys, key) && ys != [] && key(x) > key(ys[0])
    requires |rest| == |ys| && SortedBy(rest, key)
    requires forall j :: 0 <= j < |rest| ==> rest[j] == x || rest[j] in ys[1..]
    requires multiset(rest) == multiset(ys[1..]) + multiset{x}
    ensures SortedBy([ys[0]] + rest, key)
    ensures multiset([ys[0]] + rest) == multiset(ys) + multiset{x}
    ensures forall j :: 0 <= j < |[ys[0]] + rest| ==> ([ys[0]] + rest)[j] == x || ([ys[0]] + rest)[j] in ys
  {
    var r := [ys[0]] + rest;
    forall j | 0 <= j < |rest| ensures key(ys[0]) <= key(rest[j]) && (rest[j] == x || rest[j] in ys) {
      if rest[j] != x {
        var i :| 0 <= i < |ys[1..]| && ys[1..][i] == rest[j];
        assert ys[i + 1] == rest[j];
      }
    }
    forall i, j | 0 <= i < j < |r| ensures key(r[i]) <= key(r[j]) {
      assert r[j] == rest[j - 1];
      if i > 0 {
        assert r[i] == rest[i - 1];
      }
    }
    forall j | 0 <= j < |r| ensures r[j] == x || r[j] in ys {
      if j > 0 {
        assert r[j] == rest[j - 1];
      }
    }
    assert ys == [ys[0]] + ys[1..];
  }

  /** The stable sort by `key`, ascending. */
  function SortBy<T(==)>(xs: seq<T>, key: T -> int): (r: seq<T>)
    ensures SortedBy(r, key)
    ensures multiset(r) == multiset(xs)
    ensures |r| == |xs|
    decreases |xs|
  {
    if xs == [] then []
    else
      assert xs == [xs[0]] + xs[1..];
      Insert(xs[0], SortBy(xs[1..], key), key)
  }

  lemma {:induction false} WithKeyConcat<T>(a: seq<T>, b: seq<T>, key: T -> int, k: int)
    ensures WithKey(a + b, key, k) == WithKey(a, key, k) + WithKey(b, key, k)
    decreases |a|
  {
    if a == [] {
      assert a + b == b;
    } else {
      var h := if key(a[0]) == k then [a[0]] else [];
      assert (a + b)[0] == a[0];
      assert (a + b)[1..] == a[1..] + b;
      assert WithKey(a + b, key, k) == h + WithKey(a[1..] + b, key, k);
      WithKeyConcat(a[1..], b, key, k);
      assert WithKey(a, key, k) == h + WithKey(a[1..], key, k);
    }
  }

  /** Inserting `x` puts it ahead of its equal-key elements and leaves the
      other key classes alone. */
  lemma {:induction false} InsertWithKey<T>(x: T, ys: seq<T>, key: T -> int, k: int)
    requires SortedBy(ys, key)
    ensures WithKey(Insert(x, ys, key), key, k)
            == (if key(x) == k then [x] else []) + WithKey(ys, key, k)
    decreases |ys|
  {
    if ys == [] {
    } else if key(x) <= key(ys[0]) {
      assert Insert(x, ys, key) == [x] + ys;
      assert ([x] + ys)[1..] == ys;
    } else {
      var rest := Insert(x, ys[1..], key);
      assert Insert(x, ys, key) == [ys[0]] + rest;
      assert ([ys[0]] + rest)[1..] == rest;
      InsertWithKey(x, ys[1..], key, k);
      var head := if key(ys[0]) == k then [ys[0]] else [];
      var mine := if key(x) == k then [x] else [];
      assert WithKey([ys[0]] + rest, key, k) == head + (mine + WithKey(ys[1..], key, k));
      assert WithKey(ys, key, k) == head + WithKey(ys[1..], key, k);
      // ys is sorted and key(x) > key(ys[0]): x and ys[0] are never both in class k.
      if key(ys[0]) == k {
        assert mine == [];
        assert mine + WithKey(ys[1..], key, k) == WithKey(ys[1..], key, k);
      } else {
        assert head == [];
        assert head + WithKey(ys[1..], key, k) == WithKey(ys[1..], key, k);
        assert head + (mine + WithKey(ys[1..], key, k)) == mine + WithKey(ys[1..], key, k);
      }
    }
  }

  /** Stability: every key class keeps its order from the input. */
  lemma {:induction false} SortByStable<T>(xs: seq<T>, key: T -> int, k: int)
    ensures WithKey(SortBy(xs, key), key, k) == WithKey(xs, key, k)
    decreases |xs|
  {
    if xs != [] {
      SortByStable(xs[1..], key, k);
      InsertWithKey(xs[0], SortBy(xs[1..], key), key, k);
    }
  }

  /** A sorted list has nothing to move. */
  lemma {:induction false} SortBySorted<T>(xs: seq<T>, key: T -> int)
    requires SortedBy(xs, key)
    ensures SortBy(xs, key) == xs
    decreases |xs|
  {
    if xs != [] {
      assert SortedBy(xs[1..], key);
      SortBySorted(xs[1..], key);
      assert xs == [xs[0]] + xs[1..];
    }
  }

  /** Sorting twice is sorting once. */
  lemma SortByIdempotent<T>(xs: seq<T>, key: T -> int)
    ensures SortBy(SortBy(xs, key), key) == SortBy(xs, key)
  {
    SortBySorted(SortBy(xs, key), key);
  }
}
