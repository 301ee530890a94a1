/**
  Generic queries over a table held as a sequence of rows, in insertion
  order: the `findFirst` and `findMany ... where` shapes the services use,
  and the uniqueness of a key column.
 */
module Tables {
  import opened Wrappers

  /** The first row satisfying `pred`, as a `findFirst` query returns it. */
  function FindFirst<T>(rows: seq<T>, pred: T -> bool): (r: Option<T>)
    ensures r.Some? ==> r.value in rows && pred(r.value)
    ensures r.None? <==> forall x :: x in rows ==> !pred(x)
  {
    if |rows| == 0 then None
    else if pred(rows[0]) then Some(rows[0])
    else
      assert rows == [rows[0]] + rows[1..];
      FindFirst(rows[1..], pred)
  }

  /**
    The rows satisfying `pred`, in table order, as `findMany` with a
    `where` filter returns them. Every qualifying row is kept as often as
    it occurs, and no other row is.
   */
  function Filter<T(!new)>(rows: seq<T>, pred: T -> bool): (r: seq<T>)
    ensures forall x :: multiset(r)[x] == if pred(x) then multiset(rows)[x] else 0
    ensures forall x :: x in r <==> x in rows && pred(x)
    ensures |r| <= |rows|
  {
    if |rows| == 0 then []
    else
      assert rows == [rows[0]] + rows[1..];
      if pred(rows[0]) then [rows[0]] + Filter(rows[1..], pred)
      else Filter(rows[1..], pred)
  }

  /** No two rows share the value of the column `key`. */
  ghost predicate Unique<T, K>(rows: seq<T>, key: T -> K) {
    forall i, j :: 0 <= i < j < |rows| ==> key(rows[i]) != key(rows[j])
  }

  /** In a table whose `key` column is unique, the key determines the row. */
  lemma UniqueKeyDetermines<T, K>(rows: seq<T>, key: T -> K, x: T, y: T)
    requires Unique(rows, key)
    requires x in rows && y in rows && key(x) == key(y)
    ensures x == y
  {
    var i :| 0 <= i < |rows| && rows[i] == x;
    var j :| 0 <= j < |rows| && rows[j] == y;
    if i < j {
      assert false;
    } else if j < i {
      assert false;
    }
  }

  /** Appending a row whose key is new keeps the column unique. */
  lemma UniqueAppend<T, K>(rows: seq<T>, x: T, key: T -> K)
    requires Unique(rows, key)
    requires forall y :: y in rows ==> key(y) != key(x)
    ensures Unique(rows + [x], key)
  {
    var rows' := rows + [x];
    forall i, j | 0 <= i < j < |rows'|
      ensures key(rows'[i]) != key(rows'[j])
    {
      if j == |rows| {
        assert rows'[i] in rows;
      } else {
        assert rows'[i] == rows[i] && rows'[j] == rows[j];
      }
    }
  }

  /** Dropping the first row keeps a column unique. */
  lemma UniqueTail<T, K>(rows: seq<T>, key: T -> K)
    requires Unique(rows, key) && |rows| > 0
    ensures Unique(rows[1..], key)
  {
    var tail := rows[1..];
    forall i, j | 0 <= i < j < |tail|
      ensures key(tail[i]) != key(tail[j])
    {
      assert tail[i] == rows[i + 1] && tail[j] == rows[j + 1];
    }
  }

  /** Putting a row with a new key in front keeps a column unique. */
  lemma UniqueCons<T, K>(x: T, rows: seq<T>, key: T -> K)
    requires Unique(rows, key)
    requires forall y :: y in rows ==> key(y) != key(x)
    ensures Unique([x] + rows, key)
  {
    var r := [x] + rows;
    forall i, j | 0 <= i < j < |r|
      ensures key(r[i]) != key(r[j])
    {
      assert r[j] == rows[j - 1];
      if i > 0 {
        assert r[i] == rows[i - 1];
      }
    }
  }

  /** Filtering a table keeps every unique column unique. */
  lemma {:induction false} UniqueFilter<T(!new), K>(rows: seq<T>, pred: T -> bool, key: T -> K)
    requires Unique(rows, key)
    ensures Unique(Filter(rows, pred), key)
  {
    if |rows| > 0 {
      var tail := rows[1..];
      UniqueTail(rows, key);
      UniqueFilter(tail, pred, key);
      if pred(rows[0]) {
        forall y | y in Filter(tail, pred)
          ensures key(y) != key(rows[0])
        {
          var k :| 0 <= k < |tail| && tail[k] == y;
          assert rows[k + 1] == y;
        }
        UniqueCons(rows[0], Filter(tail, pred), key);
      }
    }
  }

  /**
    Deleting by a unique key that some row carries removes exactly that
    row: as a `delete ... where id` does on a primary key.
   */
  lemma RemoveByUniqueKey<T(!new), K>(rows: seq<T>, key: T -> K, x: T, pred: T -> bool)
    requires Unique(rows, key)
    requires x in rows
    requires forall y :: pred(y) <==> key(y) != key(x)
    ensures multiset(Filter(rows, pred)) == multiset(rows) - multiset{x}
  {
    var r := Filter(rows, pred);
    CountAtMostOne(rows, key, x);
    forall y
      ensures multiset(r)[y] == (multiset(rows) - multiset{x})[y]
    {
      if y != x && !pred(y) && y in rows {
        UniqueKeyDetermines(rows, key, x, y);
      }
    }
  }

  /** A row of a table with a unique column occurs in it exactly once. */
  lemma {:induction false} CountAtMostOne<T, K>(rows: seq<T>, key: T -> K, x: T)
    requires Unique(rows, key)
    requires x in rows
    ensures multiset(rows)[x] == 1
  {
    assert rows == [rows[0]] + rows[1..];
    var tail := rows[1..];
    UniqueTail(rows, key);
    if rows[0] == x {
      forall k | 0 <= k < |tail|
        ensures tail[k] != x
      {
        assert key(rows[0]) != key(rows[k + 1]);
      }
    } else {
      CountAtMostOne(tail, key, x);
    }
  }
}
