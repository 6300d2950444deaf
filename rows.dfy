/** Table algebra shared by the three tables of the store: a table is a
    sequence of rows in insertion (rowid) order, and a key is a projection
    of a row. */
module Rows {

  function Min(a: int, b: int): int { if a <= b then a else b }

  /** The set of key values occurring in a table. */
  function KeysOf<T, K(==)>(rows: seq<T>, key: T -> K): (ks: set<K>)
  {
    set i | 0 <= i < |rows| :: key(rows[i])
  }

  /** A UNIQUE constraint on `key` holds of the table. */
  ghost predicate DistinctBy<T, K>(rows: seq<T>, key: T -> K)
  {
    forall i, j :: 0 <= i < j < |rows| ==> key(rows[i]) != key(rows[j])
  }

  /** `f` grows strictly along the table (ids and timestamps do). */
  ghost predicate IncreasingBy<T>(rows: seq<T>, f: T -> int)
  {
    forall i, j :: 0 <= i < j < |rows| ==> f(rows[i]) < f(rows[j])
  }

  /** Every row's `f` lies below `bound` (the next id, the clock). */
  ghost predicate AllBelow<T>(rows: seq<T>, f: T -> int, bound: int)
  {
    forall i :: 0 <= i < |rows| ==> f(rows[i]) < bound
  }

  /** `SELECT * WHERE p(row, f)`: the rows satisfying the condition, in table order. */
  function Select<T(!new), F>(rows: seq<T>, p: (T, F) -> bool, f: F): (r: seq<T>)
    ensures |r| <= |rows|
    ensures forall x :: x in r <==> x in rows && p(x, f)
  {
    if rows == [] then []
    else
      var last := rows[|rows| - 1];
      assert rows == rows[..|rows| - 1] + [last];
      Select(rows[..|rows| - 1], p, f) + (if p(last, f) then [last] else [])
  }

  /** `DELETE WHERE key = k`: the rows whose key differs from `k`, in table order. */
  function Drop<T(!new), K(==)>(rows: seq<T>, key: T -> K, k: K): (r: seq<T>)
    ensures |r| <= |rows|
    ensures forall x :: x in r <==> x in rows && key(x) != k
  {
    if rows == [] then []
    else
      var last := rows[|rows| - 1];
      assert rows == rows[..|rows| - 1] + [last];
      Drop(rows[..|rows| - 1], key, k) + (if key(last) == k then [] else [last])
  }

  /** The table read backwards. */
  function Reverse<T>(s: seq<T>): (r: seq<T>)
    ensures |r| == |s|
    ensures forall i :: 0 <= i < |s| ==> r[i] == s[|s| - 1 - i]
  {
    if s == [] then [] else [s[|s| - 1]] + Reverse(s[..|s| - 1])
  }

  /** Deleting a key that no row carries leaves the table as it was. */
  lemma {:induction false} DropAbsent<T(!new), K>(rows: seq<T>, key: T -> K, k: K)
    requires k !in KeysOf(rows, key)
    ensures Drop(rows, key, k) == rows
  {
    if rows != [] {
      var prefix := rows[..|rows| - 1];
      assert KeysOf(prefix, key) <= KeysOf(rows, key) by {
        forall x | x in KeysOf(prefix, key) ensures x in KeysOf(rows, key) {
          var i :| 0 <= i < |prefix| && key(prefix[i]) == x;
          assert key(rows[i]) == x;
        }
      }
      DropAbsent(prefix, key, k);
      assert key(rows[|rows| - 1]) in KeysOf(rows, key);
      assert rows == prefix + [rows[|rows| - 1]];
    }
  }

  /** Under a UNIQUE constraint on `key`, deleting a present key removes exactly one row. */
  lemma {:induction false} DropPresent<T(!new), K>(rows: seq<T>, key: T -> K, k: K)
    requires DistinctBy(rows, key)
    requires k in KeysOf(rows, key)
    ensures |Drop(rows, key, k)| == |rows| - 1
  {
    var n := |rows|;
    var prefix := rows[..n - 1];
    var last := rows[n - 1];
    assert DistinctBy(prefix, key);
    if key(last) == k {
      assert k !in KeysOf(prefix, key);
      DropAbsent(prefix, key, k);
    } else {
      var i :| 0 <= i < n && key(rows[i]) == k;
      assert i < n - 1 && key(prefix[i]) == k;
      DropPresent(prefix, key, k);
    }
  }

  /** A delete keeps every UNIQUE constraint of the table. */
  lemma {:induction false} DropDistinct<T(!new), K, J>(rows: seq<T>, key: T -> K, k: K, other: T -> J)
    requires DistinctBy(rows, other)
    ensures DistinctBy(Drop(rows, key, k), other)
  {
    if rows != [] {
      var n := |rows|;
      var prefix := rows[..n - 1];
      var last := rows[n - 1];
      assert DistinctBy(prefix, other);
      DropDistinct(prefix, key, k, other);
      var d := Drop(prefix, key, k);
      forall x | x in d ensures other(x) != other(last) {
        var i :| 0 <= i < |prefix| && prefix[i] == x;
        assert rows[i] == x;
      }
    }
  }

  /** A delete keeps the ids (and timestamps) increasing. */
  lemma {:induction false} DropIncreasing<T(!new), K>(rows: seq<T>, key: T -> K, k: K, f: T -> int)
    requires IncreasingBy(rows, f)
    ensures IncreasingBy(Drop(rows, key, k), f)
  {
    if rows != [] {
      var n := |rows|;
      var prefix := rows[..n - 1];
      var last := rows[n - 1];
      assert IncreasingBy(prefix, f);
      DropIncreasing(prefix, key, k, f);
      var d := Drop(prefix, key, k);
      forall x | x in d ensures f(x) < f(last) {
        var i :| 0 <= i < |prefix| && prefix[i] == x;
        assert rows[i] == x;
      }
    }
  }

  /** A selection keeps the ids (and timestamps) increasing. */
  lemma {:induction false} SelectIncreasing<T(!new), F>(rows: seq<T>, p: (T, F) -> bool, f: F, g: T -> int)
    requires IncreasingBy(rows, g)
    ensures IncreasingBy(Select(rows, p, f), g)
  {
    if rows != [] {
      var n := |rows|;
      var prefix := rows[..n - 1];
      var last := rows[n - 1];
      assert IncreasingBy(prefix, g);
      SelectIncreasing(prefix, p, f, g);
      var s := Select(prefix, p, f);
      forall x | x in s ensures g(x) < g(last) {
        var i :| 0 <= i < |prefix| && prefix[i] == x;
        assert rows[i] == x;
      }
    }
  }

  /** Appending a row whose `f` exceeds every row's keeps `f` increasing. */
  lemma AppendIncreasing<T>(rows: seq<T>, x: T, f: T -> int)
    requires IncreasingBy(rows, f) && AllBelow(rows, f, f(x))
    ensures IncreasingBy(rows + [x], f)
  {
    var r := rows + [x];
    forall i, j | 0 <= i < j < |r| ensures f(r[i]) < f(r[j]) {
      assert r[i] == rows[i];
      if j < |rows| { assert r[j] == rows[j]; }
    }
  }

  /** Appending a row with a fresh key keeps the UNIQUE constraint. */
  lemma AppendDistinct<T, K>(rows: seq<T>, x: T, key: T -> K)
    requires DistinctBy(rows, key) && key(x) !in KeysOf(rows, key)
    ensures DistinctBy(rows + [x], key)
  {
    var r := rows + [x];
    forall i, j | 0 <= i < j < |r| ensures key(r[i]) != key(r[j]) {
      assert r[i] == rows[i];
      if j < |rows| { assert r[j] == rows[j]; } else { assert key(rows[i]) in KeysOf(rows, key); }
    }
  }

  /** A bound on every row survives a larger bound and an appended row below it. */
  lemma AppendBelow<T>(rows: seq<T>, x: T, f: T -> int, bound: int, bound': int)
    requires AllBelow(rows, f, bound) && bound <= bound' && f(x) < bound'
    ensures AllBelow(rows + [x], f, bound')
  {
    var r := rows + [x];
    forall i | 0 <= i < |r| ensures f(r[i]) < bound' {
      if i < |rows| { assert r[i] == rows[i]; }
    }
  }

  /** Strictly increasing ids are distinct ids. */
  lemma IncreasingDistinct<T>(rows: seq<T>, f: T -> int)
    requires IncreasingBy(rows, f)
    ensures DistinctBy(rows, f)
  {
  }

  /** A delete keeps every row's bound. */
  lemma DropBelow<T(!new), K>(rows: seq<T>, key: T -> K, k: K, f: T -> int, bound: int)
    requires AllBelow(rows, f, bound)
    ensures AllBelow(Drop(rows, key, k), f, bound)
  {
    var d := Drop(rows, key, k);
    forall i | 0 <= i < |d| ensures f(d[i]) < bound {
      assert d[i] in rows;
    }
  }

  /** A condition every row meets selects the whole table. */
  lemma {:induction false} SelectEverything<T(!new), F>(rows: seq<T>, p: (T, F) -> bool, f: F)
    requires forall i :: 0 <= i < |rows| ==> p(rows[i], f)
    ensures Select(rows, p, f) == rows
  {
    if rows != [] {
      var prefix := rows[..|rows| - 1];
      SelectEverything(prefix, p, f);
      assert p(rows[|rows| - 1], f);
      assert rows == prefix + [rows[|rows| - 1]];
    }
  }

  /** After a delete no row carries the deleted key. */
  lemma DropRemovesKey<T(!new), K>(rows: seq<T>, key: T -> K, k: K)
    ensures k !in KeysOf(Drop(rows, key, k), key)
  {
  }

  /** Appending a row adds exactly its key to the key set. */
  lemma KeysOfSnoc<T, K>(rows: seq<T>, key: T -> K)
    requires rows != []
    ensures KeysOf(rows, key) == KeysOf(rows[..|rows| - 1], key) + {key(rows[|rows| - 1])}
  {
    var n := |rows|;
    var prefix := rows[..n - 1];
    forall x | x in KeysOf(rows, key) ensures x in KeysOf(prefix, key) + {key(rows[n - 1])} {
      var i :| 0 <= i < n && key(rows[i]) == x;
      if i < n - 1 { assert key(prefix[i]) == x; }
    }
    forall x | x in KeysOf(prefix, key) ensures x in KeysOf(rows, key) {
      var i :| 0 <= i < n - 1 && key(prefix[i]) == x;
      assert key(rows[i]) == x;
    }
    assert key(rows[n - 1]) in KeysOf(rows, key);
  }

  /** Two tables whose keys agree position by position have the same key set. */
  lemma KeysOfPointwise<T, K>(a: seq<T>, b: seq<T>, key: T -> K)
    requires |a| == |b|
    requires forall i :: 0 <= i < |a| ==> key(a[i]) == key(b[i])
    ensures KeysOf(a, key) == KeysOf(b, key)
  {
    forall x | x in KeysOf(a, key) ensures x in KeysOf(b, key) {
      var i :| 0 <= i < |a| && key(a[i]) == x;
      assert key(b[i]) == x;
    }
    forall x | x in KeysOf(b, key) ensures x in KeysOf(a, key) {
      var i :| 0 <= i < |b| && key(b[i]) == x;
      assert key(a[i]) == x;
    }
  }

  /** Under a UNIQUE key, a table has as many rows as key values. */
  lemma {:induction false} DistinctKeysCount<T, K>(rows: seq<T>, key: T -> K)
    requires DistinctBy(rows, key)
    ensures |KeysOf(rows, key)| == |rows|
  {
    if rows == [] {
      assert KeysOf(rows, key) == {};
    } else {
      var n := |rows|;
      var prefix := rows[..n - 1];
      assert DistinctBy(prefix, key) by {
        forall a, b | 0 <= a < b < |prefix| ensures key(prefix[a]) != key(prefix[b]) {
          assert prefix[a] == rows[a] && prefix[b] == rows[b];
        }
      }
      DistinctKeysCount(prefix, key);
      KeysOfSnoc(rows, key);
      forall i | 0 <= i < n - 1 ensures key(prefix[i]) != key(rows[n - 1]) {
        assert prefix[i] == rows[i];
      }
      assert key(rows[n - 1]) !in KeysOf(prefix, key);
    }
  }

  /** Dropping the last row of an increasing table leaves it increasing, below the last row's value. */
  lemma IncreasingPrefix<T>(rows: seq<T>, f: T -> int)
    requires rows != [] && IncreasingBy(rows, f)
    ensures IncreasingBy(rows[..|rows| - 1], f) && AllBelow(rows[..|rows| - 1], f, f(rows[|rows| - 1]))
  {
    var prefix := rows[..|rows| - 1];
    forall a, b | 0 <= a < b < |prefix| ensures f(prefix[a]) < f(prefix[b]) {
      assert prefix[a] == rows[a] && prefix[b] == rows[b];
    }
    forall a | 0 <= a < |prefix| ensures f(prefix[a]) < f(rows[|rows| - 1]) {
      assert prefix[a] == rows[a];
    }
  }

  /** Appending at most one row whose value exceeds every row's keeps `f` increasing. */
  lemma AppendAtMostOne<T>(rows: seq<T>, extra: seq<T>, f: T -> int, bound: int)
    requires IncreasingBy(rows, f) && AllBelow(rows, f, bound)
    requires |extra| <= 1 && forall i :: 0 <= i < |extra| ==> f(extra[i]) == bound
    ensures IncreasingBy(rows + extra, f)
  {
    if extra == [] {
      assert rows + extra == rows;
    } else {
      assert extra == [extra[0]];
      AppendIncreasing(rows, extra[0], f);
    }
  }
}
