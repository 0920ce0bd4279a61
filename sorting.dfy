/** A stable insertion sort by a real-valued key.

    Both core files sort a list of segments by its `start` field with the
    language's built-in sort: ascending in the silence service, latest first
    in the timeline script. The sorted list is all either caller uses
    afterwards, so the sort is modelled as a pure function. */
module Sorting {

  /** `s` is in non-decreasing order of `key`. */
  predicate SortedBy<T>(s: seq<T>, key: T -> real)
  {
    forall i, j :: 0 <= i < j < |s| ==> key(s[i]) <= key(s[j])
  }

  /** Inserts `x` in front of the first element whose key is at least `key(x)`. */
  function InsertBy<T>(x: T, s: seq<T>, key: T -> real): (r: seq<T>)
    ensures multiset(r) == multiset{x} + multiset(s)
    ensures |r| == |s| + 1
    decreases |s|
  {
    if s == [] || key(x) <= key(s[0]) then [x] + s
    else
      assert s == [s[0]] + s[1..];
      [s[0]] + InsertBy(x, s[1..], key)
  }

  /** Insertion sort; an element goes in front of every later element with
      an equal key, so the sort is stable. */
  function SortBy<T>(s: seq<T>, key: T -> real): (r: seq<T>)
    ensures multiset(r) == multiset(s)
    ensures |r| == |s|
    decreases |s|
  {
    if s == [] then []
    else
      assert s == [s[0]] + s[1..];
      InsertBy(s[0], SortBy(s[1..], key), key)
  }

  lemma {:induction false} InsertBySorted<T>(x: T, s: seq<T>, key: T -> real)
    requires SortedBy(s, key)
    ensures SortedBy(InsertBy(x, s, key), key)
    decreases |s|
  {
    if s != [] && key(s[0]) < key(x) {
      var rest := InsertBy(x, s[1..], key);
      InsertBySorted(x, s[1..], key);
      forall j | 0 <= j < |rest| ensures key(s[0]) <= key(rest[j]) {
        assert rest[j] in multiset(rest);
        if rest[j] != x {
          assert rest[j] in multiset(s[1..]);
          var m :| 0 <= m < |s[1..]| && s[1..][m] == rest[j];
          assert s[1 + m] == rest[j];
        }
      }
      assert InsertBy(x, s, key) == [s[0]] + rest;
    }
  }

  /** The sort yields a sorted permutation of its input. */
  lemma {:induction false} SortBySorted<T>(s: seq<T>, key: T -> real)
    ensures SortedBy(SortBy(s, key), key)
    ensures multiset(SortBy(s, key)) == multiset(s)
    decreases |s|
  {
    if s != [] {
      SortBySorted(s[1..], key);
      InsertBySorted(s[0], SortBy(s[1..], key), key);
    }
  }

  /** Sorting an already sorted sequence leaves it as it is. */
  lemma {:induction false} SortByIdentity<T>(s: seq<T>, key: T -> real)
    requires SortedBy(s, key)
    ensures SortBy(s, key) == s
    decreases |s|
  {
    if s != [] {
      assert SortedBy(s[1..], key) by {
        forall i, j | 0 <= i < j < |s[1..]| ensures key(s[1..][i]) <= key(s[1..][j]) {
          assert s[1..][i] == s[i + 1] && s[1..][j] == s[j + 1];
        }
      }
      SortByIdentity(s[1..], key);
      assert s == [s[0]] + s[1..];
    }
  }

  /** The elements of `s` whose key is `v`, in their order in `s`. */
  function WithKey<T>(s: seq<T>, key: T -> real, v: real): seq<T>
    decreases |s|
  {
    if s == [] then []
    else (if key(s[0]) == v then [s[0]] else []) + WithKey(s[1..], key, v)
  }

  lemma WithKeyCons<T>(x: T, s: seq<T>, key: T -> real, v: real)
    ensures WithKey([x] + s, key, v) == (if key(x) == v then [x] else []) + WithKey(s, key, v)
  {
    assert ([x] + s)[1..] == s;
  }

  lemma {:induction false} InsertByStable<T>(x: T, s: seq<T>, key: T -> real, v: real)
    ensures WithKey(InsertBy(x, s, key), key, v) == (if key(x) == v then [x] else []) + WithKey(s, key, v)
    decreases |s|
  {
    if s == [] || key(x) <= key(s[0]) {
      assert InsertBy(x, s, key) == [x] + s;
      WithKeyCons(x, s, key, v);
    } else {
      InsertByStable(x, s[1..], key, v);
      InsertBehindStable(x, s, key, v);
    }
  }

  /** `x` goes behind `s[0]`, whose key is smaller, so `s[0]` is not among
      the elements with `x`'s key. */
  lemma InsertBehindStable<T>(x: T, s: seq<T>, key: T -> real, v: real)
    requires s != [] && key(s[0]) < key(x)
    requires WithKey(InsertBy(x, s[1..], key), key, v) == (if key(x) == v then [x] else []) + WithKey(s[1..], key, v)
    ensures WithKey(InsertBy(x, s, key), key, v) == (if key(x) == v then [x] else []) + WithKey(s, key, v)
  {
    var rest := InsertBy(x, s[1..], key);
    var hx := if key(x) == v then [x] else [];
    var h0 := if key(s[0]) == v then [s[0]] else [];
    assert InsertBy(x, s, key) == [s[0]] + rest;
    WithKeyCons(s[0], rest, key, v);
    SwapFronts(h0, hx, WithKey(s[1..], key, v));
  }

  /** Two prefixes, one of them empty, can be put in either order. */
  lemma SwapFronts<T>(h0: seq<T>, hx: seq<T>, w: seq<T>)
    requires h0 == [] || hx == []
    ensures h0 + (hx + w) == hx + (h0 + w)
  {
    if h0 == [] {
      assert h0 + (hx + w) == hx + w == hx + (h0 + w);
    } else {
      assert h0 + (hx + w) == h0 + w == hx + (h0 + w);
    }
  }

  /** The sort is stable: elements with equal keys keep their relative order. */
  lemma {:induction false} SortByStable<T>(s: seq<T>, key: T -> real, v: real)
    ensures WithKey(SortBy(s, key), key, v) == WithKey(s, key, v)
    decreases |s|
  {
    if s != [] {
      SortByStable(s[1..], key, v);
      InsertByStable(s[0], SortBy(s[1..], key), key, v);
    }
  }
}
