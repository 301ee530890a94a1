/**
  `orderBy` on a numeric column, as a stable insertion sort. Its contract
  promises only what the database promises: the result is ordered by the
  key and is a permutation of the input. The order of rows with equal keys
  is left to the implementation.
 */
module Sorting {

  /** The rows are in non-decreasing order of `key`. */
  ghost predicate SortedBy<T>(rows: seq<T>, key: T -> int) {
    forall i, j :: 0 <= i < j < |rows| ==> key(rows[i]) <= key(rows[j])
  }

  /** Places `x` into an already ordered sequence. */
  function InsertBy<T>(x: T, rows: seq<T>, key: T -> int): (r: seq<T>)
    requires SortedBy(rows, key)
    ensures SortedBy(r, key)
    ensures multiset(r) == multiset(rows) + multiset{x}
    ensures |r| == |rows| + 1
  {
    if |rows| == 0 then [x]
    else if key(x) <= key(rows[0]) then [x] + rows
    else
      assert rows == [rows[0]] + rows[1..];
      var rest := InsertBy(x, rows[1..], key);
      InsertStep(x, rows, key, rest);
      [rows[0]] + rest
  }

  /** The recursive case of `InsertBy`: the head stays in front. */
  lemma InsertStep<T>(x: T, rows: seq<T>, key: T -> int, rest: seq<T>)
    requires SortedBy(rows, key) && |rows| > 0 && key(rows[0]) < key(x)
    requires SortedBy(rest, key) && multiset(rest) == multiset(rows[1..]) + multiset{x}
    ensures SortedBy([rows[0]] + rest, key)
  {
    forall y | y in multiset(rows[1..]) + multiset{x}
      ensures key(rows[0]) <= key(y)
    {
      if y != x {
        var k :| 0 <= k < |rows[1..]| && rows[1..][k] == y;
        assert rows[k + 1] == y;
      }
    }
    SortedCons(rows[0], rest, key, multiset(rows[1..]) + multiset{x});
  }

  /**
    Putting `a` in front of an ordered sequence whose elements all come
    from a bag of keys no smaller than `a`'s keeps it ordered.
   */
  lemma SortedCons<T>(a: T, rest: seq<T>, key: T -> int, bag: multiset<T>)
    requires SortedBy(rest, key)
    requires multiset(rest) == bag
    requires forall y :: y in bag ==> key(a) <= key(y)
    ensures SortedBy([a] + rest, key)
  {
    var r := [a] + rest;
    forall i, j | 0 <= i < j < |r|
      ensures key(r[i]) <= key(r[j])
    {
      assert r[j] == rest[j - 1];
      if i == 0 {
        assert rest[j - 1] in multiset(rest);
      } else {
        assert r[i] == rest[i - 1];
      }
    }
  }

  /** The rows ordered by `key`: `orderBy: { key: 'asc' }`. */
  function SortBy<T>(rows: seq<T>, key: T -> int): (r: seq<T>)
    ensures SortedBy(r, key)
    ensures multiset(r) == multiset(rows)
    ensures |r| == |rows|
  {
    if |rows| == 0 then []
    else
      assert rows == [rows[0]] + rows[1..];
      InsertBy(rows[0], SortBy(rows[1..], key), key)
  }

  /** `rows` is non-empty and `x` is its final element. */
  predicate EndsWith<T(==)>(rows: seq<T>, x: T) {
    |rows| > 0 && rows[|rows| - 1] == x
  }

  /** In an ordered sequence, an element whose key beats every other element's comes last. */
  lemma StrictMaxIsLast<T>(rows: seq<T>, key: T -> int, x: T)
    requires SortedBy(rows, key) && x in rows
    requires forall y :: y in rows && y != x ==> key(y) < key(x)
    ensures EndsWith(rows, x)
  {
    var i :| 0 <= i < |rows| && rows[i] == x;
    if i < |rows| - 1 {
      assert key(x) <= key(rows[|rows| - 1]);
    }
  }
}
