/**
 * Generic operations on a table held as a sequence of rows: the set of values of a
 * column, UNIQUE over a column, WHERE filtering, lookup of the first row with a key,
 * and ORDER BY on an integer column.
 */
module Seqs {

  /** The set of values the column `key` takes over the rows of `s`. */
  function Keys<T(==), K>(s: seq<T>, key: T -> K): set<K>
  {
    set x | x in s :: key(x)
  }

  /** No two rows of `s` share a value of the column `key` (a primary key or UNIQUE constraint). */
  ghost predicate UniqueBy<T, K>(s: seq<T>, key: T -> K)
  {
    forall i, j :: 0 <= i < |s| && 0 <= j < |s| && i != j ==> key(s[i]) != key(s[j])
  }

  /** The row predicate `key == k`. */
  function KeyIs<T(!new), K(==)>(key: T -> K, k: K): (p: T -> bool)
    ensures forall x :: p(x) <==> key(x) == k
  {
    x => key(x) == k
  }

  /** The row predicate `key != k`. */
  function KeyIsNot<T(!new), K(==)>(key: T -> K, k: K): (p: T -> bool)
    ensures forall x :: p(x) <==> key(x) != k
  {
    x => key(x) != k
  }

  /** The rows of `s` that satisfy `keep`, in their original order (a WHERE clause). */
  function Filter<T(!new)>(s: seq<T>, keep: T -> bool): (r: seq<T>)
    ensures |r| <= |s|
    ensures forall x :: x in r <==> x in s && keep(x)
  {
    if s == [] then []
    else if keep(s[0]) then [s[0]] + Filter(s[1..], keep)
    else Filter(s[1..], keep)
  }

  /**
   * Position of the first row whose column `key` equals `k`, or -1 when there is none
   * (a query by key followed by `.first()`).
   */
  function FirstIndex<T, K(==)>(s: seq<T>, key: T -> K, k: K): (r: int)
    ensures -1 <= r < |s|
    ensures r >= 0 ==> key(s[r]) == k && forall j :: 0 <= j < r ==> key(s[j]) != k
    ensures r >= 0 <==> k in Keys(s, key)
  {
    if s == [] then -1
    else if key(s[0]) == k then 0
    else
      var i := FirstIndex(s[1..], key, k);
      assert k in Keys(s, key) ==> k in Keys(s[1..], key) by {
        if k in Keys(s, key) {
          var x :| x in s && key(x) == k;
          assert x in s[1..];
        }
      }
      if i < 0 then -1 else i + 1
  }

  /** On a UNIQUE column, the lookup by a row's key finds that very row. */
  lemma FirstIndexUnique<T, K>(s: seq<T>, key: T -> K, x: T)
    requires UniqueBy(s, key) && x in s
    ensures FirstIndex(s, key, key(x)) >= 0 && s[FirstIndex(s, key, key(x))] == x
  {
    var j :| 0 <= j < |s| && s[j] == x;
    assert key(x) in Keys(s, key);
    var i := FirstIndex(s, key, key(x));
    assert key(s[i]) == key(s[j]);
  }

  /** Rows sorted in nondecreasing order of the integer column `time`. */
  ghost predicate SortedBy<T>(s: seq<T>, time: T -> int)
  {
    forall i, j :: 0 <= i < j < |s| ==> time(s[i]) <= time(s[j])
  }

  /** Insert `x` into the sorted `s` before the first row with a later time. */
  function InsertBy<T>(x: T, s: seq<T>, time: T -> int): (r: seq<T>)
    requires SortedBy(s, time)
    ensures SortedBy(r, time)
    ensures multiset(r) == multiset(s) + multiset{x}
  {
    if s == [] then [x]
    else if time(x) <= time(s[0]) then
      assert SortedBy([x] + s, time) by { SortedCons(x, s, time); }
      [x] + s
    else
      var rest := InsertBy(x, s[1..], time);
      InsertBehind(x, s, rest, time);
      [s[0]] + rest
  }

  /** Inserting behind the first row of `s` keeps the order and adds exactly `x`. */
  lemma InsertBehind<T>(x: T, s: seq<T>, rest: seq<T>, time: T -> int)
    requires s != [] && SortedBy(s, time) && time(s[0]) < time(x)
    requires SortedBy(rest, time) && multiset(rest) == multiset(s[1..]) + multiset{x}
    ensures SortedBy([s[0]] + rest, time)
    ensures multiset([s[0]] + rest) == multiset(s) + multiset{x}
  {
    assert s == [s[0]] + s[1..];
    forall y | y in rest ensures time(s[0]) <= time(y) {
      assert y in multiset(rest);
      if y != x {
        assert y in multiset(s[1..]);
        var j :| 0 <= j < |s[1..]| && s[1..][j] == y;
        assert s[j + 1] == y;
      }
    }
    SortedCons(s[0], rest, time);
  }

  /** A row no later than any row of a sorted sequence can go in front of it. */
  lemma SortedCons<T>(h: T, s: seq<T>, time: T -> int)
    requires SortedBy(s, time)
    requires forall y :: y in s ==> time(h) <= time(y)
    ensures SortedBy([h] + s, time)
  {
    var r := [h] + s;
    forall i, j | 0 <= i < j < |r| ensures time(r[i]) <= time(r[j]) {
      assert r[j] == s[j - 1];
      if i == 0 {
        assert s[j - 1] in s;
      } else {
        assert r[i] == s[i - 1];
      }
    }
  }

  /** ORDER BY `time`: a sorted permutation of `s`. */
  function SortBy<T>(s: seq<T>, time: T -> int): (r: seq<T>)
    ensures SortedBy(r, time)
    ensures multiset(r) == multiset(s)
  {
    if s == [] then []
    else
      assert s == [s[0]] + s[1..];
      InsertBy(s[0], SortBy(s[1..], time), time)
  }

  // ---------------------------------------------------------------------------
  // Lemmas about appending, updating and filtering rows

  /** A row can be appended without breaking uniqueness exactly when its key is new. */
  lemma UniqueByAppendIff<T, K>(s: seq<T>, x: T, key: T -> K)
    requires UniqueBy(s, key)
    ensures UniqueBy(s + [x], key) <==> key(x) !in Keys(s, key)
  {
    var t := s + [x];
    if key(x) in Keys(s, key) {
      var y :| y in s && key(y) == key(x);
      var i :| 0 <= i < |s| && s[i] == y;
      assert t[i] == y && t[|s|] == x;
    } else {
      forall i, j | 0 <= i < |t| && 0 <= j < |t| && i != j ensures key(t[i]) != key(t[j]) {
        if i < |s| && j < |s| {
          assert t[i] == s[i] && t[j] == s[j];
        } else if i < |s| {
          assert t[i] == s[i] && s[i] in s;
        } else {
          assert t[j] == s[j] && s[j] in s;
        }
      }
    }
  }

  /** Appending a row adds its key to the column's values. */
  lemma KeysAppend<T, K>(s: seq<T>, x: T, key: T -> K)
    ensures Keys(s + [x], key) == Keys(s, key) + {key(x)}
  {
    assert forall y :: y in s + [x] <==> y in s || y == x;
  }

  /** The column's values are those of the first row and of the rest. */
  lemma KeysCons<T, K>(s: seq<T>, key: T -> K)
    requires s != []
    ensures Keys(s, key) == {key(s[0])} + Keys(s[1..], key)
  {
    assert s == [s[0]] + s[1..];
    assert forall y :: y in s <==> y == s[0] || y in s[1..];
  }

  /** Two sequences with the same multiset have the same members. */
  lemma SameMembers<T>(a: seq<T>, b: seq<T>)
    requires multiset(a) == multiset(b)
    ensures forall x :: x in a <==> x in b
  {
    forall x ensures x in a <==> x in b {
      assert x in a <==> x in multiset(a);
      assert x in b <==> x in multiset(b);
    }
  }

  /** Replacing a row by one with the same key keeps the column unique and its values unchanged. */
  lemma UniqueByUpdate<T, K>(s: seq<T>, i: nat, x: T, key: T -> K)
    requires i < |s| && key(x) == key(s[i])
    ensures UniqueBy(s, key) ==> UniqueBy(s[i := x], key)
    ensures Keys(s[i := x], key) == Keys(s, key)
  {
    var t := s[i := x];
    forall k | k in Keys(t, key) ensures k in Keys(s, key) {
      var y :| y in t && key(y) == k;
      var j :| 0 <= j < |t| && t[j] == y;
      if j == i { assert s[i] in s; } else { assert s[j] == y; }
    }
    forall k | k in Keys(s, key) ensures k in Keys(t, key) {
      var y :| y in s && key(y) == k;
      var j :| 0 <= j < |s| && s[j] == y;
      if j == i { assert t[i] == x; } else { assert t[j] == y; }
    }
  }

  /** WHERE on `s + [x]` is WHERE on `s` followed by `x` when `x` qualifies. */
  lemma {:induction false} FilterAppend<T(!new)>(s: seq<T>, x: T, keep: T -> bool)
    ensures Filter(s + [x], keep) == Filter(s, keep) + (if keep(x) then [x] else [])
  {
    if s == [] {
      assert [x][1..] == [];
    } else {
      assert (s + [x])[0] == s[0];
      assert (s + [x])[1..] == s[1..] + [x];
      FilterAppend(s[1..], x, keep);
    }
  }

  /** A WHERE clause keeps a UNIQUE column unique. */
  lemma {:induction false} FilterUnique<T(!new), K>(s: seq<T>, keep: T -> bool, key: T -> K)
    requires UniqueBy(s, key)
    ensures UniqueBy(Filter(s, keep), key)
  {
    if s != [] {
      var tail := s[1..];
      assert UniqueBy(tail, key) by {
        forall i, j | 0 <= i < |tail| && 0 <= j < |tail| && i != j
          ensures key(tail[i]) != key(tail[j])
        {
          assert tail[i] == s[i + 1] && tail[j] == s[j + 1];
        }
      }
      FilterUnique(tail, keep, key);
      var rest := Filter(tail, keep);
      if keep(s[0]) {
        var r := [s[0]] + rest;
        forall i, j | 0 <= i < |r| && 0 <= j < |r| && i != j ensures key(r[i]) != key(r[j]) {
          if i > 0 && j > 0 {
            assert r[i] == rest[i - 1] && r[j] == rest[j - 1];
          } else {
            var m := if i == 0 then j else i;
            assert r[m] == rest[m - 1] && rest[m - 1] in rest;
            assert r[m] in tail;
            var n :| 0 <= n < |tail| && tail[n] == r[m];
            assert s[n + 1] == r[m];
          }
        }
      }
    }
  }

  /** Deleting the rows whose key is `k` removes exactly `k` from the column's values. */
  lemma KeysFilterNot<T(!new), K>(s: seq<T>, key: T -> K, k: K)
    ensures Keys(Filter(s, KeyIsNot(key, k)), key) == Keys(s, key) - {k}
  {
    var f := Filter(s, KeyIsNot(key, k));
    forall v | v in Keys(s, key) - {k} ensures v in Keys(f, key) {
      var y :| y in s && key(y) == v;
      assert KeyIsNot(key, k)(y);
      assert y in f;
    }
  }

  /** A WHERE clause that every row satisfies returns the table unchanged. */
  lemma {:induction false} FilterAll<T(!new)>(s: seq<T>, keep: T -> bool)
    requires forall x :: x in s ==> keep(x)
    ensures Filter(s, keep) == s
  {
    if s != [] {
      assert s[0] in s;
      assert forall x :: x in s[1..] ==> x in s;
      FilterAll(s[1..], keep);
      assert s == [s[0]] + s[1..];
    }
  }

  /** A WHERE clause that no row satisfies returns nothing. */
  lemma FilterNone<T(!new)>(s: seq<T>, keep: T -> bool)
    requires forall x :: x in s ==> !keep(x)
    ensures Filter(s, keep) == []
  {
  }

  /** Deleting rows first never increases the number of rows a later count sees. */
  lemma {:induction false} FilterFilterShorter<T(!new)>(s: seq<T>, p: T -> bool, q: T -> bool)
    ensures |Filter(Filter(s, p), q)| <= |Filter(s, q)|
  {
    if s != [] {
      FilterFilterShorter(s[1..], p, q);
      if p(s[0]) {
        assert Filter(s, p) == [s[0]] + Filter(s[1..], p);
        assert ([s[0]] + Filter(s[1..], p))[0] == s[0];
        assert ([s[0]] + Filter(s[1..], p))[1..] == Filter(s[1..], p);
      }
    }
  }
}
