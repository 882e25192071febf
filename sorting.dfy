/** Stable insertion sorts by a numeric key: the model of Python's
    `list.sort(key=..., reverse=True)` (stable, ties keep their input order) and of
    an ascending sort by timestamp, with the facts the ranking stages use. */
module Sorting {

  // ---------------------------------------------------------------- descending, stable

  predicate NonIncreasing<T>(s: seq<T>, key: T -> real) {
    forall i, j :: 0 <= i < j < |s| ==> key(s[i]) >= key(s[j])
  }

  lemma PrependNonIncreasing<T>(y: T, t: seq<T>, key: T -> real)
    requires NonIncreasing(t, key)
    requires forall z :: z in t ==> key(z) <= key(y)
    ensures NonIncreasing([y] + t, key)
  {
    var r := [y] + t;
    forall i, j | 0 <= i < j < |r| ensures key(r[i]) >= key(r[j]) {
      assert r[j] == t[j - 1] && r[j] in t;
      if i > 0 { assert r[i] == t[i - 1]; }
    }
  }

  lemma HeadIsLargest<T>(t: seq<T>, key: T -> real)
    requires NonIncreasing(t, key)
    ensures t != [] ==> forall z :: z in t ==> key(z) <= key(t[0])
  {
    forall z | z in t ensures key(z) <= key(t[0]) {
      var m :| 0 <= m < |t| && t[m] == z;
    }
  }

  lemma InsertedFrom<T>(x: T, t: seq<T>, rest: seq<T>)
    requires t != [] && multiset(rest) == multiset{x} + multiset(t[1..])
    ensures forall z :: z in rest ==> z == x || z in t
  {
    forall z | z in rest ensures z == x || z in t {
      assert z in multiset(rest);
      if z != x {
        assert z in multiset(t[1..]);
        var m :| 0 <= m < |t[1..]| && t[1..][m] == z;
        assert t[m + 1] == z;
      }
    }
  }

  /** Puts `x` in front of the first element whose key is not larger than its own,
      so that `x` stays before the elements with an equal key. */
  function InsertDesc<T>(x: T, t: seq<T>, key: T -> real): (r: seq<T>)
    requires NonIncreasing(t, key)
    ensures multiset(r) == multiset{x} + multiset(t)
    ensures NonIncreasing(r, key)
  {
    if t == [] || key(t[0]) <= key(x) then
      HeadIsLargest(t, key);
      PrependNonIncreasing(x, t, key);
      [x] + t
    else
      assert t == [t[0]] + t[1..];
      var rest := InsertDesc(x, t[1..], key);
      InsertedFrom(x, t, rest);
      HeadIsLargest(t, key);
      PrependNonIncreasing(t[0], rest, key);
      [t[0]] + rest
  }

  /** `sorted(s, key=key, reverse=True)`: a permutation of `s`, ordered by
      non-increasing key. */
  function SortDesc<T>(s: seq<T>, key: T -> real): (r: seq<T>)
    ensures multiset(r) == multiset(s) && |r| == |s|
    ensures NonIncreasing(r, key)
  {
    if s == [] then []
    else
      assert s == [s[0]] + s[1..];
      var r := InsertDesc(s[0], SortDesc(s[1..], key), key);
      assert |r| == |multiset(r)|;
      r
  }

  /** The elements of `s` whose key is `k`, in their order in `s`. */
  function WithKey<T>(s: seq<T>, key: T -> real, k: real): seq<T> {
    if s == [] then [] else (if key(s[0]) == k then [s[0]] else []) + WithKey(s[1..], key, k)
  }

  lemma WithKeyCons<T>(y: T, t: seq<T>, key: T -> real, k: real)
    ensures WithKey([y] + t, key, k) == (if key(y) == k then [y] else []) + WithKey(t, key, k)
  {
    assert ([y] + t)[1..] == t;
  }

  lemma {:induction false} InsertDescWithKey<T>(x: T, t: seq<T>, key: T -> real, k: real)
    requires NonIncreasing(t, key)
    ensures WithKey(InsertDesc(x, t, key), key, k) == (if key(x) == k then [x] else []) + WithKey(t, key, k)
  {
    if t == [] || key(t[0]) <= key(x) {
      WithKeyCons(x, t, key, k);
    } else {
      var rest := InsertDesc(x, t[1..], key);
      InsertDescWithKey(x, t[1..], key, k);
      WithKeyCons(t[0], rest, key, k);
      WithKeyCons(t[0], t[1..], key, k);
      assert [t[0]] + t[1..] == t;
    }
  }

  /** Stability: for every key value, the elements with that key keep their input order. */
  lemma {:induction false} SortDescStable<T>(s: seq<T>, key: T -> real, k: real)
    ensures WithKey(SortDesc(s, key), key, k) == WithKey(s, key, k)
  {
    if s != [] {
      SortDescStable(s[1..], key, k);
      InsertDescWithKey(s[0], SortDesc(s[1..], key), key, k);
    }
  }

  /** Ordered by non-increasing key, and by `lt` among equal keys. */
  predicate OrderedWithTies<T>(s: seq<T>, key: T -> real, lt: (T, T) -> bool) {
    forall i, j :: 0 <= i < j < |s| ==> key(s[i]) > key(s[j]) || (key(s[i]) == key(s[j]) && lt(s[i], s[j]))
  }

  predicate Chain<T>(s: seq<T>, lt: (T, T) -> bool) {
    forall i, j :: 0 <= i < j < |s| ==> lt(s[i], s[j])
  }

  lemma {:induction false} InsertDescTies<T>(x: T, t: seq<T>, key: T -> real, lt: (T, T) -> bool)
    requires OrderedWithTies(t, key, lt)
    requires forall y :: y in t ==> lt(x, y)
    ensures NonIncreasing(t, key)
    ensures OrderedWithTies(InsertDesc(x, t, key), key, lt)
  {
    assert NonIncreasing(t, key);
    if t == [] || key(t[0]) <= key(x) {
      var r := [x] + t;
      forall i, j | 0 <= i < j < |r|
        ensures key(r[i]) > key(r[j]) || (key(r[i]) == key(r[j]) && lt(r[i], r[j]))
      {
        if i == 0 {
          assert r[j] == t[j - 1] && r[j] in t;
        } else {
          assert r[i] == t[i - 1] && r[j] == t[j - 1];
        }
      }
    } else {
      var rest := InsertDesc(x, t[1..], key);
      assert OrderedWithTies(t[1..], key, lt) by {
        forall i, j | 0 <= i < j < |t[1..]|
          ensures key(t[1..][i]) > key(t[1..][j]) || (key(t[1..][i]) == key(t[1..][j]) && lt(t[1..][i], t[1..][j]))
        {
          assert t[1..][i] == t[i + 1] && t[1..][j] == t[j + 1];
        }
      }
      InsertDescTies(x, t[1..], key, lt);
      var r := [t[0]] + rest;
      forall i, j | 0 <= i < j < |r|
        ensures key(r[i]) > key(r[j]) || (key(r[i]) == key(r[j]) && lt(r[i], r[j]))
      {
        if i == 0 {
          var y := r[j];
          assert y in multiset(rest);
          assert y == x || y in multiset(t[1..]);
          if y != x {
            var m :| 0 <= m < |t[1..]| && t[1..][m] == y;
            assert t[m + 1] == y;
          }
        } else {
          assert r[i] == rest[i - 1] && r[j] == rest[j - 1];
        }
      }
    }
  }

  /** A stable sort of a sequence already ordered by `lt` breaks ties by `lt`. */
  lemma {:induction false} SortDescTies<T>(s: seq<T>, key: T -> real, lt: (T, T) -> bool)
    requires Chain(s, lt)
    ensures OrderedWithTies(SortDesc(s, key), key, lt)
  {
    if s != [] {
      var tail := s[1..];
      assert Chain(tail, lt) by {
        forall i, j | 0 <= i < j < |tail| ensures lt(tail[i], tail[j]) {
          assert tail[i] == s[i + 1] && tail[j] == s[j + 1];
        }
      }
      SortDescTies(tail, key, lt);
      var sorted := SortDesc(tail, key);
      forall y | y in sorted ensures lt(s[0], y) {
        assert y in multiset(tail);
        var m :| 0 <= m < |tail| && tail[m] == y;
        assert s[m + 1] == y;
      }
      InsertDescTies(s[0], sorted, key, lt);
    }
  }

  // ---------------------------------------------------------------- taking the top

  /** `s[:n]`. */
  function Take<T>(s: seq<T>, n: nat): (r: seq<T>)
    ensures |r| == if n < |s| then n else |s|
    ensures r == s[..|r|]
  {
    if n < |s| then s[..n] else s
  }

  /** The first `n` are taken from the sequence. */
  lemma TakeIsSubMultiset<T>(s: seq<T>, n: nat)
    ensures multiset(Take(s, n)) <= multiset(s)
  {
    var r := Take(s, n);
    assert s == r + s[|r|..];
    assert multiset(s) == multiset(r) + multiset(s[|r|..]);
  }

  /** The first `n` of a non-increasing sequence have the largest keys. */
  lemma TakeDominates<T>(r: seq<T>, key: T -> real, n: nat, i: nat, y: T)
    requires NonIncreasing(r, key)
    requires i < |Take(r, n)| && y in multiset(r) - multiset(Take(r, n))
    ensures key(y) <= key(Take(r, n)[i])
  {
    var top := Take(r, n);
    var rest := r[|top|..];
    assert r == top + rest;
    assert y in multiset(rest) by {
      assert multiset(r) == multiset(top) + multiset(rest);
    }
    var m :| 0 <= m < |rest| && rest[m] == y;
    assert r[|top| + m] == y && top[i] == r[i];
  }

  /** Taking the first `n` of a sorted sequence keeps the largest keys: nothing
      left out has a larger key than anything taken. */
  lemma TakeSortedDominates<T>(s: seq<T>, key: T -> real, n: nat, i: nat, y: T)
    requires i < |Take(SortDesc(s, key), n)|
    requires y in multiset(s) - multiset(Take(SortDesc(s, key), n))
    ensures key(y) <= key(Take(SortDesc(s, key), n)[i])
  {
    TakeDominates(SortDesc(s, key), key, n, i, y);
  }

  // ---------------------------------------------------------------- ascending

  predicate NonDecreasing<T>(s: seq<T>, key: T -> int) {
    forall i, j :: 0 <= i < j < |s| ==> key(s[i]) <= key(s[j])
  }

  lemma PrependNonDecreasing<T>(y: T, t: seq<T>, key: T -> int)
    requires NonDecreasing(t, key)
    requires forall z :: z in t ==> key(y) <= key(z)
    ensures NonDecreasing([y] + t, key)
  {
    var r := [y] + t;
    forall i, j | 0 <= i < j < |r| ensures key(r[i]) <= key(r[j]) {
      assert r[j] == t[j - 1] && r[j] in t;
      if i > 0 { assert r[i] == t[i - 1]; }
    }
  }

  lemma HeadIsSmallest<T>(t: seq<T>, key: T -> int)
    requires NonDecreasing(t, key)
    ensures t != [] ==> forall z :: z in t ==> key(t[0]) <= key(z)
  {
    forall z | z in t ensures key(t[0]) <= key(z) {
      var m :| 0 <= m < |t| && t[m] == z;
    }
  }

  /** Puts `x` in front of the first element whose key is not smaller than its own. */
  function InsertAsc<T>(x: T, t: seq<T>, key: T -> int): (r: seq<T>)
    requires NonDecreasing(t, key)
    ensures multiset(r) == multiset{x} + multiset(t)
    ensures NonDecreasing(r, key)
  {
    if t == [] || key(x) <= key(t[0]) then
      HeadIsSmallest(t, key);
      PrependNonDecreasing(x, t, key);
      [x] + t
    else
      assert t == [t[0]] + t[1..];
      var rest := InsertAsc(x, t[1..], key);
      InsertedFrom(x, t, rest);
      HeadIsSmallest(t, key);
      PrependNonDecreasing(t[0], rest, key);
      [t[0]] + rest
  }

  /** An ascending sort by key: a permutation of `s` with non-decreasing keys. */
  function SortAsc<T>(s: seq<T>, key: T -> int): (r: seq<T>)
    ensures multiset(r) == multiset(s) && |r| == |s|
    ensures NonDecreasing(r, key)
  {
    if s == [] then []
    else
      assert s == [s[0]] + s[1..];
      var r := InsertAsc(s[0], SortAsc(s[1..], key), key);
      assert |r| == |multiset(r)|;
      r
  }
}
