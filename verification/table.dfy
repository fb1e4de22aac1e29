/** The in-memory stand-in for a JPA repository: a table is the sequence of
    its rows, single-row queries return the first matching row, and a new row
    receives an id larger than every id already present. */
module Table {
  import opened Wrappers

  /** A point in time, as returned by `LocalDateTime.now()`; supplied by the caller. */
  type Instant = int

  /** The position of the first row satisfying `p`, or `None` when no row does. */
  function IndexWhere<E>(rows: seq<E>, p: E -> bool): (r: Option<nat>)
    ensures r.Some? ==> r.value < |rows| && p(rows[r.value])
    ensures r.Some? ==> forall k :: 0 <= k < r.value ==> !p(rows[k])
    ensures r.None? <==> forall k :: 0 <= k < |rows| ==> !p(rows[k])
    decreases |rows|
  {
    if |rows| == 0 then None
    else if p(rows[0]) then Some(0)
    else match IndexWhere(rows[1..], p)
      case None => None
      case Some(i) => Some(i + 1)
  }

  /** Two searches that agree, position by position, on which rows match
      find the same position. */
  lemma IndexWhereCongruent<E>(rows1: seq<E>, p1: E -> bool, rows2: seq<E>, p2: E -> bool)
    requires |rows1| == |rows2|
    requires forall k :: 0 <= k < |rows1| ==> p1(rows1[k]) == p2(rows2[k])
    ensures IndexWhere(rows1, p1) == IndexWhere(rows2, p2)
  {
    var r1, r2 := IndexWhere(rows1, p1), IndexWhere(rows2, p2);
    if r1.Some? {
      assert p2(rows2[r1.value]);
    }
    if r2.Some? {
      assert p1(rows1[r2.value]);
    }
  }

  /** Appending a row that does not match leaves the search result unchanged. */
  lemma IndexWhereAppendMiss<E>(rows: seq<E>, p: E -> bool, e: E)
    requires !p(e)
    ensures IndexWhere(rows + [e], p) == IndexWhere(rows, p)
  {
    var r1, r2 := IndexWhere(rows + [e], p), IndexWhere(rows, p);
    if r1.Some? {
      assert (rows + [e])[r1.value] == rows[r1.value];
    }
    if r2.Some? {
      assert (rows + [e])[r2.value] == rows[r2.value];
    }
  }

  /** `delete(entity)`: the table without the row at position `i`. */
  function RemoveAt<E>(rows: seq<E>, i: nat): (r: seq<E>)
    requires i < |rows|
    ensures |r| == |rows| - 1
    ensures forall k :: 0 <= k < i ==> r[k] == rows[k]
    ensures forall k :: i <= k < |r| ==> r[k] == rows[k + 1]
  {
    rows[..i] + rows[i + 1..]
  }

  /** Removing a row keeps every other row and adds none. */
  lemma RemoveAtContents<E>(rows: seq<E>, i: nat)
    requires i < |rows|
    ensures forall x :: x in RemoveAt(rows, i) ==> x in rows
    ensures forall k :: 0 <= k < |rows| && k != i ==> rows[k] in RemoveAt(rows, i)
  {
    var r := RemoveAt(rows, i);
    forall k | 0 <= k < |rows| && k != i
      ensures rows[k] in r
    {
      if k < i {
        assert r[k] == rows[k];
      } else {
        assert r[k - 1] == rows[k];
      }
    }
  }

  /** No two rows share a key: the invariant behind a single-row query. */
  predicate Unique<E, K(==)>(rows: seq<E>, key: E -> K) {
    forall i, j :: 0 <= i < |rows| && 0 <= j < |rows| && key(rows[i]) == key(rows[j]) ==> i == j
  }

  /** Removing a row keeps keys unique. */
  lemma RemoveAtKeepsUnique<E, K>(rows: seq<E>, i: nat, key: E -> K)
    requires i < |rows| && Unique(rows, key)
    ensures Unique(RemoveAt(rows, i), key)
  {
    var r := RemoveAt(rows, i);
    forall a, b | 0 <= a < |r| && 0 <= b < |r| && key(r[a]) == key(r[b])
      ensures a == b
    {
      var a0 := if a < i then a else a + 1;
      var b0 := if b < i then b else b + 1;
      assert r[a] == rows[a0] && r[b] == rows[b0];
    }
  }

  /** When keys are unique, removing the row at `i` leaves exactly the rows
      whose key differs from that row's. */
  lemma RemoveAtOnlyMatch<E, K>(rows: seq<E>, i: nat, key: E -> K)
    requires i < |rows| && Unique(rows, key)
    ensures forall x :: x in RemoveAt(rows, i) <==> x in rows && key(x) != key(rows[i])
  {
    var r := RemoveAt(rows, i);
    forall x | x in r
      ensures x in rows && key(x) != key(rows[i])
    {
      var k :| 0 <= k < |r| && r[k] == x;
      if k < i {
        assert r[k] == rows[k];
      } else {
        assert r[k] == rows[k + 1];
      }
    }
    forall x | x in rows && key(x) != key(rows[i])
      ensures x in r
    {
      var k :| 0 <= k < |rows| && rows[k] == x;
      if k < i {
        assert r[k] == x;
      } else {
        assert r[k - 1] == x;
      }
    }
  }

  /** `findById`: the position of the first row whose key is `id`. */
  function IndexOfKey<E>(rows: seq<E>, key: E -> int, id: int): (r: Option<nat>)
    ensures r.Some? ==> r.value < |rows| && key(rows[r.value]) == id
    ensures r.Some? ==> forall k :: 0 <= k < r.value ==> key(rows[k]) != id
    ensures r.None? <==> forall k :: 0 <= k < |rows| ==> key(rows[k]) != id
  {
    IndexWhere(rows, (e: E) => key(e) == id)
  }

  /** `findById` followed by `delete`: the table without the row whose key is
      `id`, or `None` when no row has it. */
  function DeleteKey<E>(rows: seq<E>, key: E -> int, id: int): (r: Option<seq<E>>)
    ensures r.None? <==> forall k :: 0 <= k < |rows| ==> key(rows[k]) != id
    ensures r.Some? ==> |r.value| == |rows| - 1
  {
    match IndexOfKey(rows, key, id)
    case None => None
    case Some(i) => Some(RemoveAt(rows, i))
  }

  /** When keys are unique, a delete leaves exactly the rows with another key. */
  lemma DeleteKeyRemovesExactly<E>(rows: seq<E>, key: E -> int, id: int)
    requires Unique(rows, key) && DeleteKey(rows, key, id).Some?
    ensures forall x :: x in DeleteKey(rows, key, id).value <==> x in rows && key(x) != id
  {
    RemoveAtOnlyMatch(rows, IndexOfKey(rows, key, id).value, key);
  }

  /** A delete keeps any key unique that was unique before. */
  lemma DeleteKeyKeepsUnique<E, K>(rows: seq<E>, key: E -> int, id: int, other: E -> K)
    requires Unique(rows, other) && DeleteKey(rows, key, id).Some?
    ensures Unique(DeleteKey(rows, key, id).value, other)
  {
    RemoveAtKeepsUnique(rows, IndexOfKey(rows, key, id).value, other);
  }

  /** An id strictly larger than every id present, and at least 1. */
  function NextId<E>(rows: seq<E>, idOf: E -> int): (r: int)
    ensures r >= 1
    ensures forall k :: 0 <= k < |rows| ==> idOf(rows[k]) < r
    decreases |rows|
  {
    if |rows| == 0 then 1
    else
      var rest := NextId(rows[1..], idOf);
      if idOf(rows[0]) + 1 > rest then idOf(rows[0]) + 1 else rest
  }
}
