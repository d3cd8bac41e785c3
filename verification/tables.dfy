/** Generic operations on the sequences that stand for database tables:
    the first-row lookup of a filtered `select`, removal of one row, the
    rows a filter keeps, and the key properties (increasing primary keys,
    unique columns) a table keeps. */
module Tables {
  import opened Wrappers

  /** Primary keys strictly increase along the table, so no key repeats. */
  predicate Increasing<T>(s: seq<T>, key: T -> int)
  {
    forall i, j :: 0 <= i < j < |s| ==> key(s[i]) < key(s[j])
  }

  /** No two rows share a value in the column `key` (a `unique=True` column). */
  predicate Distinct<T, K(==)>(s: seq<T>, key: T -> K)
  {
    forall i, j :: 0 <= i < j < |s| ==> key(s[i]) != key(s[j])
  }

  /** The position of the first row, in table order, satisfying `p`: the
      row `select(...).where(...)` followed by `.scalar()` yields, or `None`. */
  function FirstIndex<T>(s: seq<T>, p: T -> bool): (r: Option<nat>)
    ensures r.None? <==> forall i :: 0 <= i < |s| ==> !p(s[i])
    ensures r.Some? ==> r.value < |s| && p(s[r.value])
    ensures r.Some? ==> forall i :: 0 <= i < r.value ==> !p(s[i])
  {
    if |s| == 0 then None
    else if p(s[0]) then Some(0)
    else
      match FirstIndex(s[1..], p)
      case None => None
      case Some(k) => Some(k + 1)
  }

  /** The table without its row at position `i`. */
  function RemoveAt<T>(s: seq<T>, i: nat): (r: seq<T>)
    requires i < |s|
    ensures |r| == |s| - 1
    ensures forall j :: 0 <= j < i ==> r[j] == s[j]
    ensures forall j :: i <= j < |r| ==> r[j] == s[j + 1]
    ensures forall x :: x in r ==> x in s
  {
    s[..i] + s[i + 1..]
  }

  /** The rows satisfying `keep`, in table order: a filtered `select`
      with all its results, or a bulk `DELETE` of the others. */
  function Filter<T(!new)>(s: seq<T>, keep: T -> bool): (r: seq<T>)
    ensures |r| <= |s|
    ensures forall x :: x in r <==> x in s && keep(x)
    ensures (forall i :: 0 <= i < |s| ==> keep(s[i])) ==> r == s
  {
    if |s| == 0 then []
    else if keep(s[0]) then [s[0]] + Filter(s[1..], keep)
    else Filter(s[1..], keep)
  }

  /** Filtering keeps the order of the rows, so it keeps keys increasing. */
  lemma {:induction false} FilterIncreasing<T(!new)>(s: seq<T>, keep: T -> bool, key: T -> int)
    requires Increasing(s, key)
    ensures Increasing(Filter(s, keep), key)
  {
    if |s| > 0 {
      var rest := Filter(s[1..], keep);
      FilterIncreasing(s[1..], keep, key);
      if keep(s[0]) {
        var r := [s[0]] + rest;
        forall a, b | 0 <= a < b < |r|
          ensures key(r[a]) < key(r[b])
        {
          assert r[b] == rest[b - 1];
          if a == 0 {
            assert rest[b - 1] in s[1..];
            var k :| 0 <= k < |s[1..]| && s[1..][k] == rest[b - 1];
            assert s[k + 1] == r[b];
          } else {
            assert r[a] == rest[a - 1];
          }
        }
      }
    }
  }

  /** In a table with increasing keys, removing the row at `i` removes
      exactly the rows with that row's key and keeps every other row. */
  lemma RemoveAtMembers<T>(s: seq<T>, i: nat, key: T -> int)
    requires i < |s|
    requires Increasing(s, key)
    ensures Increasing(RemoveAt(s, i), key)
    ensures forall x :: x in RemoveAt(s, i) <==> x in s && key(x) != key(s[i])
  {
    var r := RemoveAt(s, i);
    forall a, b | 0 <= a < b < |r|
      ensures key(r[a]) < key(r[b])
    {
      var a' := if a < i then a else a + 1;
      var b' := if b < i then b else b + 1;
      assert r[a] == s[a'] && r[b] == s[b'];
    }
    forall x
      ensures x in r <==> x in s && key(x) != key(s[i])
    {
      if x in r {
        var j :| 0 <= j < |r| && r[j] == x;
        var j' := if j < i then j else j + 1;
        assert s[j'] == x && j' != i;
      }
      if x in s && key(x) != key(s[i]) {
        var j :| 0 <= j < |s| && s[j] == x;
        assert j != i;
        if j < i {
          assert r[j] == x;
        } else {
          assert r[j - 1] == x;
        }
      }
    }
  }

  /** Removing a row keeps a unique column unique. */
  lemma RemoveAtDistinct<T, K>(s: seq<T>, i: nat, key: T -> K)
    requires i < |s|
    requires Distinct(s, key)
    ensures Distinct(RemoveAt(s, i), key)
  {
    var r := RemoveAt(s, i);
    forall a, b | 0 <= a < b < |r|
      ensures key(r[a]) != key(r[b])
    {
      var a' := if a < i then a else a + 1;
      var b' := if b < i then b else b + 1;
      assert r[a] == s[a'] && r[b] == s[b'];
    }
  }

  /** Appending a row whose key is above every existing key keeps keys increasing. */
  lemma AppendIncreasing<T>(s: seq<T>, x: T, key: T -> int)
    requires Increasing(s, key)
    requires forall y :: y in s ==> key(y) < key(x)
    ensures Increasing(s + [x], key)
  {
    var r := s + [x];
    forall a, b | 0 <= a < b < |r|
      ensures key(r[a]) < key(r[b])
    {
      assert r[a] == s[a] by { assert a < |s|; }
      if b == |s| {
        assert s[a] in s;
      } else {
        assert r[b] == s[b];
      }
    }
  }

  /** Appending a row whose column value is new keeps that column unique. */
  lemma AppendDistinct<T, K>(s: seq<T>, x: T, key: T -> K)
    requires Distinct(s, key)
    requires forall y :: y in s ==> key(y) != key(x)
    ensures Distinct(s + [x], key)
  {
    var r := s + [x];
    forall a, b | 0 <= a < b < |r|
      ensures key(r[a]) != key(r[b])
    {
      assert r[a] == s[a] by { assert a < |s|; }
      if b == |s| {
        assert s[a] in s;
      } else {
        assert r[b] == s[b];
      }
    }
  }

  /** Overwriting one row, keeping its key, keeps keys increasing. */
  lemma UpdateIncreasing<T>(s: seq<T>, i: nat, x: T, key: T -> int)
    requires i < |s|
    requires Increasing(s, key)
    requires key(x) == key(s[i])
    ensures Increasing(s[i := x], key)
  {
  }

  /** Overwriting one row with a value no other row has keeps that column unique. */
  lemma UpdateDistinct<T, K>(s: seq<T>, i: nat, x: T, key: T -> K)
    requires i < |s|
    requires Distinct(s, key)
    requires forall j :: 0 <= j < |s| && j != i ==> key(s[j]) != key(x)
    ensures Distinct(s[i := x], key)
  {
  }

  /** Two rows with the same value in a unique column are the same row. */
  lemma DistinctIndex<T, K>(s: seq<T>, key: T -> K, i: nat, j: nat)
    requires Distinct(s, key)
    requires i < |s| && j < |s| && key(s[i]) == key(s[j])
    ensures i == j
  {
  }

  /** Two rows with the same primary key are the same row. */
  lemma IncreasingIndex<T>(s: seq<T>, key: T -> int, i: nat, j: nat)
    requires Increasing(s, key)
    requires i < |s| && j < |s| && key(s[i]) == key(s[j])
    ensures i == j
  {
  }
}
