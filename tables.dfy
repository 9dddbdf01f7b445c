/** A table of rows with a primary key, kept in insertion order: the shape
    of the doctor and appointment tables behind the repositories. */
module Tables {
  import opened Outcomes
  import opened Seqs

  predicate UniqueKeys<T>(rows: seq<T>, key: T -> nat)
  {
    forall i, j :: 0 <= i < j < |rows| ==> key(rows[i]) != key(rows[j])
  }

  predicate HasKey<T>(rows: seq<T>, key: T -> nat, k: nat)
  {
    exists i :: 0 <= i < |rows| && key(rows[i]) == k
  }

  /** `findById`: the row with key `k`, if any. */
  function FindByKey<T>(rows: seq<T>, key: T -> nat, k: nat): (r: Option<T>)
    ensures r.Some? ==> r.value in rows && key(r.value) == k
    ensures r.None? <==> !HasKey(rows, key, k)
    decreases |rows|
  {
    if rows == [] then None
    else if key(rows[0]) == k then Some(rows[0])
    else
      var r := FindByKey(rows[1..], key, k);
      assert HasKey(rows[1..], key, k) ==> HasKey(rows, key, k) by {
        if HasKey(rows[1..], key, k) {
          var i :| 0 <= i < |rows[1..]| && key(rows[1..][i]) == k;
          assert key(rows[i + 1]) == k;
        }
      }
      r
  }

  /** `save` of a row whose key is present: the row is replaced in place. */
  function ReplaceByKey<T>(rows: seq<T>, key: T -> nat, x: T): (r: seq<T>)
    ensures |r| == |rows|
    ensures forall i :: 0 <= i < |rows| ==> r[i] == if key(rows[i]) == key(x) then x else rows[i]
  {
    seq(|rows|, i requires 0 <= i < |rows| => if key(rows[i]) == key(x) then x else rows[i])
  }

  /** `delete`: every row with key `k` is dropped; a missing key changes nothing. */
  function RemoveByKey<T(==)>(rows: seq<T>, key: T -> nat, k: nat): seq<T>
  {
    Filter(rows, KeyOtherThan(key, k))
  }

  function KeyOtherThan<T>(key: T -> nat, k: nat): T -> bool
  {
    x => key(x) != k
  }

  /** A single-result query: no match is `null`, one match is that row, and
      more than one raises `IncorrectResultSizeDataAccessException`. */
  function SingleResult<T>(matches: seq<T>): (r: Try<Option<T>>)
    ensures r == Throws <==> |matches| > 1
    ensures r == Returns(None) <==> matches == []
    ensures r.Returns? && r.value.Some? ==> matches == [r.value.value]
  {
    if |matches| == 0 then Returns(None)
    else if |matches| == 1 then Returns(Some(matches[0]))
    else Throws
  }

  /** With unique keys, the row found for a key is the row at any position
      holding that key. */
  lemma FindByKeyUnique<T>(rows: seq<T>, key: T -> nat, i: nat)
    requires UniqueKeys(rows, key) && i < |rows|
    ensures FindByKey(rows, key, key(rows[i])) == Some(rows[i])
    decreases i
  {
    if i > 0 {
      assert key(rows[0]) != key(rows[i]);
      assert rows[1..][i - 1] == rows[i];
      FindByKeyUnique(rows[1..], key, i - 1);
    }
  }

  /** Replacing a row keeps the keys, so it keeps them unique, and the row is
      then found under its key. */
  lemma {:induction false} ReplaceByKeyFacts<T>(rows: seq<T>, key: T -> nat, x: T)
    requires UniqueKeys(rows, key) && HasKey(rows, key, key(x))
    ensures forall i :: 0 <= i < |rows| ==> key(ReplaceByKey(rows, key, x)[i]) == key(rows[i])
    ensures UniqueKeys(ReplaceByKey(rows, key, x), key)
    ensures FindByKey(ReplaceByKey(rows, key, x), key, key(x)) == Some(x)
  {
    var r := ReplaceByKey(rows, key, x);
    var i :| 0 <= i < |rows| && key(rows[i]) == key(x);
    assert r[i] == x;
    FindByKeyUnique(r, key, i);
  }

  /** A filtered table keeps unique keys. */
  lemma {:induction false} FilterKeepsUniqueKeys<T>(rows: seq<T>, key: T -> nat, p: T -> bool)
    requires UniqueKeys(rows, key)
    ensures UniqueKeys(Filter(rows, p), key)
    decreases |rows|
  {
    if rows != [] {
      UniqueKeysTail(rows, key);
      FilterKeepsUniqueKeys(rows[1..], key, p);
      var ft := Filter(rows[1..], p);
      if p(rows[0]) {
        assert Filter(rows, p) == [rows[0]] + ft;
        UniqueKeysCons(rows[0], ft, key);
      } else {
        assert Filter(rows, p) == ft;
      }
    }
  }

  /** The tail of a table with unique keys has unique keys, none equal to the head's. */
  lemma UniqueKeysTail<T>(rows: seq<T>, key: T -> nat)
    requires UniqueKeys(rows, key) && rows != []
    ensures UniqueKeys(rows[1..], key)
    ensures forall x :: x in rows[1..] ==> key(x) != key(rows[0])
  {
    var tail := rows[1..];
    forall i, j | 0 <= i < j < |tail| ensures key(tail[i]) != key(tail[j]) {
      assert tail[i] == rows[i + 1] && tail[j] == rows[j + 1];
    }
    forall x | x in tail ensures key(x) != key(rows[0]) {
      var m :| 0 <= m < |tail| && tail[m] == x;
      assert tail[m] == rows[m + 1];
    }
  }

  /** A row whose key no row of `rest` has extends a table with unique keys. */
  lemma UniqueKeysCons<T>(x: T, rest: seq<T>, key: T -> nat)
    requires UniqueKeys(rest, key)
    requires forall y :: y in rest ==> key(y) != key(x)
    ensures UniqueKeys([x] + rest, key)
  {
    var r := [x] + rest;
    forall i, j | 0 <= i < j < |r| ensures key(r[i]) != key(r[j]) {
      assert r[j] == rest[j - 1];
      if i > 0 {
        assert r[i] == rest[i - 1];
      } else {
        assert rest[j - 1] in rest;
      }
    }
  }

  /** After a removal the key is gone and every other row is still there. */
  lemma RemoveByKeyFacts<T>(rows: seq<T>, key: T -> nat, k: nat)
    ensures !HasKey(RemoveByKey(rows, key, k), key, k)
    ensures forall x :: x in rows && key(x) != k ==> x in RemoveByKey(rows, key, k)
    ensures forall x :: x in RemoveByKey(rows, key, k) ==> x in rows
  {
    var r := RemoveByKey(rows, key, k);
    forall x | x in rows && key(x) != k ensures x in r {
      var i :| 0 <= i < |rows| && rows[i] == x;
    }
  }

  /** Removing a key a second time changes nothing. */
  lemma RemoveByKeyTwice<T>(rows: seq<T>, key: T -> nat, k: nat)
    ensures RemoveByKey(RemoveByKey(rows, key, k), key, k) == RemoveByKey(rows, key, k)
  {
    var once := RemoveByKey(rows, key, k);
    forall x | x in once ensures KeyOtherThan(key, k)(x) {
      var i :| 0 <= i < |once| && once[i] == x;
    }
    FilterAll(once, KeyOtherThan(key, k));
  }
}
