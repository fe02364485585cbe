/**
 * Ordering records by a numeric key, ascending or descending, as
 * `Array.prototype.sort` does with a comparator `(a, b) => key(a) - key(b)` (or
 * its negation): a stable sort.
 */
module Sorting {

  /** A record with key `a` may stand before one with key `b`. */
  predicate InOrder(a: int, b: int, desc: bool) {
    if desc then a >= b else a <= b
  }

  /** A record with key `a` must stand before one with key `b`. */
  predicate StrictlyBefore(a: int, b: int, desc: bool) {
    if desc then a > b else a < b
  }

  predicate SortedBy<T>(s: seq<T>, key: T -> int, desc: bool) {
    forall i, j | 0 <= i < j < |s| :: InOrder(key(s[i]), key(s[j]), desc)
  }

  /** The records of `s` whose key is `k`, in the order of `s`. */
  function WithKey<T>(s: seq<T>, key: T -> int, k: int): (r: seq<T>)
    ensures |r| <= |s|
  {
    if s == [] then []
    else (if key(s[0]) == k then [s[0]] else []) + WithKey(s[1..], key, k)
  }

  /** Puts `x` into `s` after every record that need not follow it. */
  function Insert<T>(x: T, s: seq<T>, key: T -> int, desc: bool): seq<T>
  {
    if s == [] then [x]
    else if StrictlyBefore(key(x), key(s[0]), desc) then [x] + s
    else [s[0]] + Insert(x, s[1..], key, desc)
  }

  /** Insertion sort: each record in turn is inserted into the sorted prefix before it. */
  function InsertionSort<T>(s: seq<T>, key: T -> int, desc: bool): seq<T>
  {
    if s == [] then [] else Insert(s[|s| - 1], InsertionSort(s[..|s| - 1], key, desc), key, desc)
  }

  /** The tail of a sorted sequence is sorted, and its head may stand before all of it. */
  lemma SortedTail<T>(s: seq<T>, key: T -> int, desc: bool)
    requires s != [] && SortedBy(s, key, desc)
    ensures SortedBy(s[1..], key, desc)
    ensures forall i | 0 <= i < |s| - 1 :: InOrder(key(s[0]), key(s[1..][i]), desc)
  {
    var tail := s[1..];
    forall i, j | 0 <= i < j < |tail| ensures InOrder(key(tail[i]), key(tail[j]), desc) {
      assert tail[i] == s[i + 1] && tail[j] == s[j + 1];
    }
    forall i | 0 <= i < |tail| ensures InOrder(key(s[0]), key(tail[i]), desc) {
      assert tail[i] == s[i + 1];
    }
  }

  lemma {:induction false} InsertKeepsOrder<T>(x: T, s: seq<T>, key: T -> int, desc: bool)
    requires SortedBy(s, key, desc)
    ensures SortedBy(Insert(x, s, key, desc), key, desc)
    ensures multiset(Insert(x, s, key, desc)) == multiset(s) + multiset{x}
  {
    if s == [] {
    } else if StrictlyBefore(key(x), key(s[0]), desc) {
      InsertFrontKeepsOrder(x, s, key, desc);
    } else {
      var rest := Insert(x, s[1..], key, desc);
      SortedTail(s, key, desc);
      InsertKeepsOrder(x, s[1..], key, desc);
      assert s == [s[0]] + s[1..];
      HeadBeforeInserted(x, s, rest, key, desc);
    }
  }

  lemma InsertFrontKeepsOrder<T>(x: T, s: seq<T>, key: T -> int, desc: bool)
    requires s != [] && SortedBy(s, key, desc) && StrictlyBefore(key(x), key(s[0]), desc)
    ensures SortedBy([x] + s, key, desc)
  {
    var r := [x] + s;
    forall i, j | 0 <= i < j < |r| ensures InOrder(key(r[i]), key(r[j]), desc) {
      if i == 0 {
        assert r[j] == s[j - 1];
        if j > 1 { assert InOrder(key(s[0]), key(s[j - 1]), desc); }
      } else {
        assert r[i] == s[i - 1] && r[j] == s[j - 1];
      }
    }
  }

  /** The head of a sorted `s` may stand before everything in `rest`, which holds the tail and one record that need not follow the head. */
  lemma HeadBeforeInserted<T>(x: T, s: seq<T>, rest: seq<T>, key: T -> int, desc: bool)
    requires s != [] && !StrictlyBefore(key(x), key(s[0]), desc)
    requires forall i | 0 <= i < |s| - 1 :: InOrder(key(s[0]), key(s[1..][i]), desc)
    requires SortedBy(rest, key, desc)
    requires multiset(rest) == multiset(s[1..]) + multiset{x}
    ensures SortedBy([s[0]] + rest, key, desc)
  {
    forall j | 0 <= j < |rest| ensures InOrder(key(s[0]), key(rest[j]), desc) {
      assert rest[j] in multiset(rest);
      if rest[j] != x {
        assert rest[j] in multiset(s[1..]);
        var k :| 0 <= k < |s[1..]| && s[1..][k] == rest[j];
      }
    }
    var r := [s[0]] + rest;
    forall i, j | 0 <= i < j < |r| ensures InOrder(key(r[i]), key(r[j]), desc) {
      if i == 0 {
        assert r[j] == rest[j - 1];
      } else {
        assert r[i] == rest[i - 1] && r[j] == rest[j - 1];
      }
    }
  }

  lemma {:induction false} WithKeyConcat<T>(a: seq<T>, b: seq<T>, key: T -> int, k: int)
    ensures WithKey(a + b, key, k) == WithKey(a, key, k) + WithKey(b, key, k)
  {
    if a == [] {
      assert a + b == b;
    } else {
      var head := if key(a[0]) == k then [a[0]] else [];
      calc {
        WithKey(a + b, key, k);
        { assert a + b == [a[0]] + (a[1..] + b); WithKeyCons(a[0], a[1..] + b, key, k); }
        head + WithKey(a[1..] + b, key, k);
        { WithKeyConcat(a[1..], b, key, k); }
        head + (WithKey(a[1..], key, k) + WithKey(b, key, k));
        (head + WithKey(a[1..], key, k)) + WithKey(b, key, k);
        { assert a == [a[0]] + a[1..]; WithKeyCons(a[0], a[1..], key, k); }
        WithKey(a, key, k) + WithKey(b, key, k);
      }
    }
  }

  lemma WithKeyCons<T>(y: T, t: seq<T>, key: T -> int, k: int)
    ensures WithKey([y] + t, key, k) == (if key(y) == k then [y] else []) + WithKey(t, key, k)
  {
    assert ([y] + t)[0] == y && ([y] + t)[1..] == t;
  }

  lemma {:induction false} WithKeyNone<T>(s: seq<T>, key: T -> int, k: int)
    requires forall i | 0 <= i < |s| :: key(s[i]) != k
    ensures WithKey(s, key, k) == []
  {
    if s != [] { WithKeyNone(s[1..], key, k); }
  }

  /** Inserting `x` places it after every record of `s` that has the same key. */
  lemma {:induction false} InsertStable<T>(x: T, s: seq<T>, key: T -> int, desc: bool, k: int)
    requires SortedBy(s, key, desc)
    ensures WithKey(Insert(x, s, key, desc), key, k)
         == WithKey(s, key, k) + (if key(x) == k then [x] else [])
  {
    if s == [] {
    } else if StrictlyBefore(key(x), key(s[0]), desc) {
      InsertFrontStable(x, s, key, desc, k);
    } else {
      var tail := s[1..];
      assert Insert(x, s, key, desc) == [s[0]] + Insert(x, tail, key, desc);
      SortedTail(s, key, desc);
      InsertStable(x, tail, key, desc, k);
      WithKeyCons(s[0], Insert(x, tail, key, desc), key, k);
      assert s == [s[0]] + tail;
      WithKeyCons(s[0], tail, key, k);
    }
  }

  /** When `x` goes in front, no record of `s` shares its key. */
  lemma InsertFrontStable<T>(x: T, s: seq<T>, key: T -> int, desc: bool, k: int)
    requires s != [] && SortedBy(s, key, desc) && StrictlyBefore(key(x), key(s[0]), desc)
    ensures WithKey([x] + s, key, k) == WithKey(s, key, k) + (if key(x) == k then [x] else [])
  {
    WithKeyCons(x, s, key, k);
    if key(x) == k {
      forall i | 0 <= i < |s| ensures key(s[i]) != k {
        if i > 0 { assert InOrder(key(s[0]), key(s[i]), desc); }
      }
      WithKeyNone(s, key, k);
    }
  }

  /** The sort orders the records, keeps every one of them, and is stable. */
  lemma {:induction false} InsertionSortCorrect<T>(s: seq<T>, key: T -> int, desc: bool)
    ensures SortedBy(InsertionSort(s, key, desc), key, desc)
    ensures multiset(InsertionSort(s, key, desc)) == multiset(s)
    ensures forall k :: WithKey(InsertionSort(s, key, desc), key, k) == WithKey(s, key, k)
  {
    if s != [] {
      var init, last := s[..|s| - 1], s[|s| - 1];
      assert s == init + [last];
      InsertionSortCorrect(init, key, desc);
      InsertKeepsOrder(last, InsertionSort(init, key, desc), key, desc);
      forall k ensures WithKey(InsertionSort(s, key, desc), key, k) == WithKey(s, key, k) {
        InsertStable(last, InsertionSort(init, key, desc), key, desc, k);
        WithKeyConcat(init, [last], key, k);
      }
    }
  }

  /**
   * Sorts a copy of `s` by `key`, newest (largest key) first when `desc`: the
   * result is the insertion sort of `s`, so it is ordered, a permutation of
   * `s`, and keeps records with equal keys in their original order.
   */
  method SortByKey<T>(s: seq<T>, key: T -> int, desc: bool) returns (r: seq<T>)
    ensures r == InsertionSort(s, key, desc)
    ensures SortedBy(r, key, desc) && multiset(r) == multiset(s)
    ensures forall k :: WithKey(r, key, k) == WithKey(s, key, k)
  {
    r := [];
    var i := 0;
    while i < |s|
      invariant 0 <= i <= |s|
      invariant r == InsertionSort(s[..i], key, desc)
    {
      assert s[..i + 1][..i] == s[..i];
      r := Insert(s[i], r, key, desc);
      i := i + 1;
    }
    assert s[..|s|] == s;
    InsertionSortCorrect(s, key, desc);
  }
}
