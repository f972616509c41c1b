/** INSERT ... ON CONFLICT(key) DO UPDATE on a table of rows with a unique key. */
module Upserts {
  import opened Text

  ghost predicate UniqueKeys<T(!new), K(!new)>(key: T -> K, rows: seq<T>) {
    forall i, j :: 0 <= i < j < |rows| ==> key(rows[i]) != key(rows[j])
  }

  function Find<T, K(==)>(key: T -> K, rows: seq<T>, k: K): Option<T> {
    if rows == [] then None else if key(rows[0]) == k then Some(rows[0]) else Find(key, rows[1..], k)
  }

  lemma UniqueTail<T(!new), K(!new)>(key: T -> K, rows: seq<T>)
    requires rows != [] && UniqueKeys(key, rows)
    ensures UniqueKeys(key, rows[1..]) && Find(key, rows[1..], key(rows[0])).None?
  {
    var rest := rows[1..];
    assert forall i :: 0 <= i < |rest| ==> rest[i] == rows[i + 1];
    NotFound(key, rest, key(rows[0]));
  }

  lemma {:induction false} NotFound<T(!new), K(!new)>(key: T -> K, rows: seq<T>, k: K)
    requires forall i :: 0 <= i < |rows| ==> key(rows[i]) != k
    ensures Find(key, rows, k).None?
  {
    if rows != [] {
      NotFound(key, rows[1..], k);
    }
  }

  /** The row replaces the row of the same key in place, or is appended. */
  function Upsert<T, K(==)>(key: T -> K, rows: seq<T>, row: T): seq<T> {
    if rows == [] then [row]
    else if key(rows[0]) == key(row) then [row] + rows[1..]
    else [rows[0]] + Upsert(key, rows[1..], row)
  }

  lemma {:induction false} FindUpsert<T(!new), K(!new)>(key: T -> K, rows: seq<T>, row: T, k: K)
    ensures Find(key, Upsert(key, rows, row), k) == if k == key(row) then Some(row) else Find(key, rows, k)
  {
    if rows != [] {
      if key(rows[0]) == key(row) {
        assert ([row] + rows[1..])[1..] == rows[1..];
      } else {
        FindUpsert(key, rows[1..], row, k);
        assert Upsert(key, rows, row)[1..] == Upsert(key, rows[1..], row);
      }
    }
  }

  lemma {:induction false} UpsertTwice<T(!new), K(!new)>(key: T -> K, rows: seq<T>, first: T, second: T)
    requires key(first) == key(second)
    ensures Upsert(key, Upsert(key, rows, first), second) == Upsert(key, rows, second)
  {
    if rows != [] {
      if key(rows[0]) == key(first) {
        assert ([first] + rows[1..])[1..] == rows[1..];
      } else {
        UpsertTwice(key, rows[1..], first, second);
        assert Upsert(key, rows, first)[1..] == Upsert(key, rows[1..], first);
      }
    }
  }

  lemma {:induction false} UpsertMembers<T(!new), K(!new)>(key: T -> K, rows: seq<T>, row: T)
    ensures forall x :: x in Upsert(key, rows, row) ==> x in rows || x == row
    ensures row in Upsert(key, rows, row)
  {
    if rows != [] {
      UpsertMembers(key, rows[1..], row);
      assert rows == [rows[0]] + rows[1..];
    }
  }

  lemma {:induction false} UpsertUnique<T(!new), K(!new)>(key: T -> K, rows: seq<T>, row: T)
    requires UniqueKeys(key, rows)
    ensures UniqueKeys(key, Upsert(key, rows, row))
  {
    if rows != [] && key(rows[0]) != key(row) {
      var rest := Upsert(key, rows[1..], row);
      UpsertUnique(key, rows[1..], row);
      UpsertMembers(key, rows[1..], row);
      forall i | 0 <= i < |rest| ensures key(rest[i]) != key(rows[0]) {
        assert rest[i] in rest;
        if rest[i] != row {
          var j :| 0 <= j < |rows| - 1 && rows[1..][j] == rest[i];
          assert rows[j + 1] == rest[i];
        }
      }
    }
  }

  lemma {:induction false} FindMember<T(!new), K(!new)>(key: T -> K, rows: seq<T>, k: K)
    ensures var r := Find(key, rows, k); r.Some? ==> r.value in rows && key(r.value) == k
    ensures Find(key, rows, k).None? ==> forall x :: x in rows ==> key(x) != k
  {
    if rows != [] {
      FindMember(key, rows[1..], k);
      assert rows == [rows[0]] + rows[1..];
    }
  }

  lemma {:induction false} MemberFind<T(!new), K(!new)>(key: T -> K, rows: seq<T>, x: T)
    requires UniqueKeys(key, rows) && x in rows
    ensures Find(key, rows, key(x)) == Some(x)
  {
    if rows[0] != x {
      var j :| 0 <= j < |rows| && rows[j] == x;
      assert key(rows[0]) != key(rows[j]);
      assert rows[1..][j - 1] == x;
      MemberFind(key, rows[1..], x);
    }
  }

  /** Under a unique key the last row is found by its own key, every other row before it. */
  lemma {:induction false} FindLast<T(!new), K(!new)>(key: T -> K, rows: seq<T>, k: K)
    requires rows != [] && UniqueKeys(key, rows)
    ensures var n := |rows| - 1;
            Find(key, rows, k) == if key(rows[n]) == k then Some(rows[n]) else Find(key, rows[..n], k)
  {
    var n := |rows| - 1;
    if n > 0 {
      assert key(rows[0]) != key(rows[n]);
      FindLast(key, rows[1..], k);
      assert rows[1..][..n - 1] == rows[..n][1..];
    }
  }
}
