/**
 * Python's `list.sort(key=...)` as a stable insertion sort on sequences.
 * The script sorts photos by timestamp (ascending) and mixture components by
 * the negated mean, i.e. by descending mean; both rely on the sort being a
 * permutation that orders the keys, and the mean ranking also on its stability.
 */
module Sorting {

  ghost predicate SortedBy<T>(s: seq<T>, key: T -> real)
  {
    forall i, j :: 0 <= i < j < |s| ==> key(s[i]) <= key(s[j])
  }

  /** Sorted by key, and among equal keys by a strictly increasing tag. */
  ghost predicate LexSortedBy<T>(s: seq<T>, key: T -> real, tag: T -> int)
  {
    forall i, j :: 0 <= i < j < |s| ==>
      key(s[i]) < key(s[j]) || (key(s[i]) == key(s[j]) && tag(s[i]) < tag(s[j]))
  }

  ghost predicate TagsIncreasing<T>(s: seq<T>, tag: T -> int)
  {
    forall i, j :: 0 <= i < j < |s| ==> tag(s[i]) < tag(s[j])
  }

  /** Puts `x` in front of the first element whose key is not smaller than its own. */
  function Insert<T>(x: T, s: seq<T>, key: T -> real): (r: seq<T>)
    ensures multiset(r) == multiset(s) + multiset{x}
    ensures SortedBy(s, key) ==> SortedBy(r, key)
  {
    if s == [] || key(x) <= key(s[0]) then [x] + s
    else
      var rest := Insert(x, s[1..], key);
      assert s == [s[0]] + s[1..];
      InsertedAfterHead(x, s, rest, key);
      [s[0]] + rest
  }

  lemma InsertedAfterHead<T>(x: T, s: seq<T>, rest: seq<T>, key: T -> real)
    requires s != [] && key(s[0]) < key(x)
    requires multiset(rest) == multiset(s[1..]) + multiset{x}
    requires SortedBy(s[1..], key) ==> SortedBy(rest, key)
    ensures SortedBy(s, key) ==> SortedBy([s[0]] + rest, key)
  {
    if SortedBy(s, key) {
      forall k | 0 <= k < |rest| ensures key(s[0]) <= key(rest[k]) {
        var y := rest[k];
        assert y in multiset(rest);
        if y != x {
          assert y in multiset(s[1..]);
          var m :| 0 <= m < |s[1..]| && s[1..][m] == y;
          assert s[m + 1] == y;
        }
      }
      var r := [s[0]] + rest;
      forall i, j | 0 <= i < j < |r| ensures key(r[i]) <= key(r[j]) {
        if i > 0 {
          assert r[i] == rest[i - 1] && r[j] == rest[j - 1];
        } else {
          assert r[j] == rest[j - 1];
        }
      }
    }
  }

  /** The stable sort: the result is a permutation of `s` in ascending key order. */
  function SortBy<T>(s: seq<T>, key: T -> real): (r: seq<T>)
    ensures multiset(r) == multiset(s)
    ensures SortedBy(r, key)
  {
    if s == [] then []
    else
      assert s == [s[0]] + s[1..];
      Insert(s[0], SortBy(s[1..], key), key)
  }

  /** An element ordered before every element of a sorted sequence can go in front of it. */
  lemma LexPrepend<T>(y: T, s: seq<T>, key: T -> real, tag: T -> int)
    requires LexSortedBy(s, key, tag)
    requires forall z :: z in s ==> key(y) < key(z) || (key(y) == key(z) && tag(y) < tag(z))
    ensures LexSortedBy([y] + s, key, tag)
  {
    var r := [y] + s;
    forall i, j | 0 <= i < j < |r| ensures key(r[i]) < key(r[j]) || (key(r[i]) == key(r[j]) && tag(r[i]) < tag(r[j])) {
      assert r[j] == s[j - 1];
      if i > 0 {
        assert r[i] == s[i - 1];
      }
    }
  }

  lemma {:induction false} InsertKeepsLexOrder<T>(x: T, s: seq<T>, key: T -> real, tag: T -> int)
    requires LexSortedBy(s, key, tag)
    requires forall y :: y in s ==> tag(x) < tag(y)
    ensures LexSortedBy(Insert(x, s, key), key, tag)
  {
    if s == [] || key(x) <= key(s[0]) {
      forall z | z in s ensures key(x) < key(z) || (key(x) == key(z) && tag(x) < tag(z)) {
        var k :| 0 <= k < |s| && s[k] == z;
        if k > 0 {
          assert key(s[0]) <= key(z);
        }
      }
      LexPrepend(x, s, key, tag);
    } else {
      var tail := s[1..];
      forall y | y in tail ensures tag(x) < tag(y) {
        assert y in s;
      }
      assert LexSortedBy(tail, key, tag) by {
        forall i, j | 0 <= i < j < |tail| ensures key(tail[i]) < key(tail[j]) || (key(tail[i]) == key(tail[j]) && tag(tail[i]) < tag(tail[j])) {
          assert tail[i] == s[i + 1] && tail[j] == s[j + 1];
        }
      }
      InsertKeepsLexOrder(x, tail, key, tag);
      var rest := Insert(x, tail, key);
      forall y | y in rest ensures key(s[0]) < key(y) || (key(s[0]) == key(y) && tag(s[0]) < tag(y)) {
        assert y in multiset(rest);
        if y != x {
          assert y in tail;
          var k :| 0 <= k < |tail| && tail[k] == y;
          assert s[k + 1] == y;
        }
      }
      LexPrepend(s[0], rest, key, tag);
    }
  }

  /**
   * Stability: when the input's tags increase (for instance, they are the
   * input positions), equal keys keep their input order in the result.
   */
  lemma {:induction false} SortByIsStable<T>(s: seq<T>, key: T -> real, tag: T -> int)
    requires TagsIncreasing(s, tag)
    ensures LexSortedBy(SortBy(s, key), key, tag)
  {
    if s != [] {
      SortByIsStable(s[1..], key, tag);
      var sorted := SortBy(s[1..], key);
      forall y | y in sorted ensures tag(s[0]) < tag(y) {
        assert y in multiset(sorted);
        assert y in s[1..];
        var k :| 0 <= k < |s[1..]| && s[1..][k] == y;
        assert s[k + 1] == y;
      }
      InsertKeepsLexOrder(s[0], sorted, key, tag);
    }
  }
}
