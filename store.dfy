/**
 * The record store the dispatcher talks to, standing in for StudentRepository
 * and its SQL table: rows keyed by id, the order in which a full scan returns
 * them, and the next auto-increment id. Whether a call fails is not decided by
 * the store's contents but by the environment, passed in as a StoreFault.
 */
module Store {
  import opened Optional
  import opened Dates
  import opened StudentModel

  /**
   * What the database does with one call. Every statement runs on a fresh
   * auto-commit connection, so a write that executed is committed whatever
   * happens after it.
   *   Healthy: the call runs normally.
   *   Throws: an SQLException before anything is written (wrapped in a
   *     ProgramException with the repository's message).
   *   NoRowAffected: the write affects no row (for UPDATE and DELETE, another
   *     connection removed the row).
   *   KeyLost: INSERT writes its row but no generated key comes back; for the
   *     other calls this is Healthy.
   *   ThrowsAfterWrite: the write is committed, then an SQLException follows
   *     (reading the generated key, or closing the statement or connection);
   *     for a read this is Throws.
   * Reads ignore NoRowAffected.
   */
  datatype StoreFault =
    | Healthy
    | Throws(message: string)
    | NoRowAffected
    | KeyLost
    | ThrowsAfterWrite(message: string)

  /** The call ends in a ProgramException. */
  predicate Fails(f: StoreFault)
  {
    f.Throws? || f.ThrowsAfterWrite?
  }

  /** A write executes and is committed. */
  predicate Writes(f: StoreFault)
  {
    f.Healthy? || f.KeyLost? || f.ThrowsAfterWrite?
  }

  datatype Result<T> = Ok(value: T) | Failure(message: string)

  datatype Table = Table(rows: map<int, Student>, order: seq<int>, nextId: int)

  /** A fresh table: no rows, auto-increment starting at 1. */
  const EmptyTable: Table := Table(map[], [], 1)

  predicate Distinct(s: seq<int>)
  {
    forall i, j :: 0 <= i < j < |s| ==> s[i] != s[j]
  }

  /** What a row must satisfy to be written: Student.java's constraints and a four-digit-year date. */
  predicate Persistable(s: Student)
  {
    Valid(s) && IsIsoDate(s.dob.value)
  }

  /**
   * The table's invariant: the scan order lists each stored id once, every id
   * was issued before (below nextId, at least 1) and names its own row, and
   * every persisted record satisfies all field constraints.
   */
  ghost predicate Wf(t: Table)
  {
    && t.nextId >= 1
    && Distinct(t.order)
    && (forall id :: id in t.order <==> id in t.rows)
    && (forall id :: id in t.rows ==> 1 <= id < t.nextId && t.rows[id].id == id && Persistable(t.rows[id]))
  }

  lemma EmptyTableWf()
    ensures Wf(EmptyTable)
  {
  }

  /** `findById`: the row with that id, if any. */
  function FindById(t: Table, id: int, f: StoreFault): (r: Result<Option<Student>>)
    ensures r.Failure? <==> Fails(f)
    ensures r.Failure? ==> r.message == f.message
    ensures r.Ok? ==> (r.value.Some? <==> id in t.rows) && (r.value.Some? ==> r.value.value == t.rows[id])
  {
    if Fails(f) then Failure(f.message)
    else Ok(if id in t.rows then Some(t.rows[id]) else None)
  }

  /** The rows named by `order`, in that order (ids without a row are skipped). */
  function RowsOf(rows: map<int, Student>, order: seq<int>): (r: seq<Student>)
    ensures (forall i :: 0 <= i < |order| ==> order[i] in rows) ==>
      |r| == |order| && forall i :: 0 <= i < |order| ==> r[i] == rows[order[i]]
    decreases |order|
  {
    if order == [] then []
    else (if order[0] in rows then [rows[order[0]]] else []) + RowsOf(rows, order[1..])
  }

  /** `findAll`: every row, in scan order. */
  function FindAll(t: Table, f: StoreFault): (r: Result<seq<Student>>)
    ensures r.Failure? <==> Fails(f)
    ensures r.Failure? ==> r.message == f.message
    ensures r.Ok? ==> r.value == RowsOf(t.rows, t.order)
  {
    if Fails(f) then Failure(f.message) else Ok(RowsOf(t.rows, t.order))
  }

  /** A distinct list is as long as the set of its elements. */
  lemma {:induction false} DistinctCardinality(s: seq<int>)
    requires Distinct(s)
    ensures |set x | x in s| == |s|
    decreases |s|
  {
    if s != [] {
      var rest := s[1..];
      assert Distinct(rest) by {
        forall i, j | 0 <= i < j < |rest| ensures rest[i] != rest[j] {
          assert rest[i] == s[i + 1] && rest[j] == s[j + 1];
        }
      }
      DistinctCardinality(rest);
      assert s[0] !in rest by {
        forall i | 0 <= i < |rest| ensures rest[i] != s[0] {
          assert rest[i] == s[i + 1];
        }
      }
      assert (set x | x in s) == (set x | x in rest) + {s[0]} by {
        assert s == [s[0]] + rest;
      }
    }
  }

  /** A well-formed table lists each of its rows exactly once, in scan order. */
  lemma ScanListsEveryRow(t: Table)
    requires Wf(t)
    ensures var all := RowsOf(t.rows, t.order);
      |all| == |t.rows| && forall i :: 0 <= i < |all| ==> all[i] == t.rows[t.order[i]]
  {
    forall i | 0 <= i < |t.order| ensures t.order[i] in t.rows {
      assert t.order[i] in t.order;
    }
    DistinctCardinality(t.order);
    assert (set x | x in t.order) == t.rows.Keys by {
      forall x | x in t.rows.Keys ensures x in t.order {
        assert x in t.rows;
      }
    }
  }

  /**
   * `insert`: the table the database now holds, and the new id, -1 when no
   * key came back, or the exception. A committed row takes the next
   * auto-increment id, which a well-formed table has never issued.
   */
  function Insert(t: Table, s: Student, f: StoreFault): (r: (Table, Result<int>))
    ensures r.1.Failure? <==> Fails(f)
    ensures r.1.Failure? ==> r.1.message == f.message
    ensures f.Healthy? ==> r.1 == Ok(t.nextId) && (Wf(t) ==> t.nextId >= 1 && t.nextId !in t.rows)
    ensures f.NoRowAffected? || f.KeyLost? ==> r.1 == Ok(-1)
    ensures !Writes(f) ==> r.0 == t
    ensures Writes(f) ==>
      && r.0.rows == t.rows[t.nextId := s.(id := t.nextId)]
      && r.0.order == t.order + [t.nextId]
      && r.0.nextId == t.nextId + 1
  {
    var id := t.nextId;
    var added := Table(t.rows[id := s.(id := id)], t.order + [id], id + 1);
    match f
    case Throws(message) => (t, Failure(message))
    case NoRowAffected => (t, Ok(-1))
    case Healthy => (added, Ok(id))
    case KeyLost => (added, Ok(-1))
    case ThrowsAfterWrite(message) => (added, Failure(message))
  }

  /** `update`: the table the database now holds, and whether a row with the record's id took the new field values. */
  function Update(t: Table, s: Student, f: StoreFault): (r: (Table, Result<bool>))
    ensures r.1.Failure? <==> Fails(f)
    ensures r.1.Failure? ==> r.1.message == f.message
    ensures r.1.Ok? ==> (r.1.value <==> Writes(f) && s.id in t.rows)
    ensures r.0 == if Writes(f) && s.id in t.rows then t.(rows := t.rows[s.id := s]) else t
  {
    var changed := Writes(f) && s.id in t.rows;
    var t' := if changed then t.(rows := t.rows[s.id := s]) else t;
    (t', if Fails(f) then Failure(f.message) else Ok(changed))
  }

  /** `order` with `x` taken out. */
  function Remove(order: seq<int>, x: int): (r: seq<int>)
    ensures forall y :: y in r <==> y in order && y != x
    ensures |r| <= |order|
    ensures x !in order ==> r == order
    decreases |order|
  {
    if order == [] then []
    else if order[0] == x then Remove(order[1..], x)
    else [order[0]] + Remove(order[1..], x)
  }

  /** Removal works element by element, so the remaining ids keep their relative order. */
  lemma {:induction false} RemoveAppend(a: seq<int>, b: seq<int>, x: int)
    ensures Remove(a + b, x) == Remove(a, x) + Remove(b, x)
    decreases |a|
  {
    if a == [] {
      assert a + b == b;
    } else {
      assert (a + b)[0] == a[0];
      assert (a + b)[1..] == a[1..] + b;
      RemoveAppend(a[1..], b, x);
    }
  }

  lemma {:induction false} RemoveKeepsDistinct(order: seq<int>, x: int)
    requires Distinct(order)
    ensures Distinct(Remove(order, x))
    decreases |order|
  {
    if order != [] {
      var rest := order[1..];
      assert Distinct(rest) by {
        forall i, j | 0 <= i < j < |rest| ensures rest[i] != rest[j] {
          assert rest[i] == order[i + 1] && rest[j] == order[j + 1];
        }
      }
      RemoveKeepsDistinct(rest, x);
      if order[0] != x {
        assert order[0] !in rest by {
          forall i | 0 <= i < |rest| ensures rest[i] != order[0] {
            assert rest[i] == order[i + 1];
          }
        }
        var r := Remove(rest, x);
        assert order[0] !in r;
        forall i, j | 0 <= i < j < |[order[0]] + r| ensures ([order[0]] + r)[i] != ([order[0]] + r)[j] {
          if i == 0 {
            assert ([order[0]] + r)[j] == r[j - 1];
          } else {
            assert ([order[0]] + r)[i] == r[i - 1] && ([order[0]] + r)[j] == r[j - 1];
          }
        }
      }
    }
  }

  /** `delete`: the table the database now holds, and whether a row with that id was there and is now gone. */
  function Delete(t: Table, id: int, f: StoreFault): (r: (Table, Result<bool>))
    ensures r.1.Failure? <==> Fails(f)
    ensures r.1.Failure? ==> r.1.message == f.message
    ensures r.1.Ok? ==> (r.1.value <==> Writes(f) && id in t.rows)
    ensures !(Writes(f) && id in t.rows) ==> r.0 == t
    ensures Writes(f) && id in t.rows ==> r.0.rows == t.rows - {id} && r.0.order == Remove(t.order, id) && r.0.nextId == t.nextId
  {
    var changed := Writes(f) && id in t.rows;
    var t' := if changed then Table(t.rows - {id}, Remove(t.order, id), t.nextId) else t;
    (t', if Fails(f) then Failure(f.message) else Ok(changed))
  }

  /** Inserting a persistable record keeps the table well formed; the new row's id is not currently stored. */
  lemma InsertKeepsWf(t: Table, s: Student, f: StoreFault)
    requires Wf(t) && Persistable(s)
    ensures Wf(Insert(t, s, f).0)
  {
    if Writes(f) {
      var t' := Insert(t, s, f).0;
      assert Distinct(t'.order) by {
        forall i, j | 0 <= i < j < |t'.order| ensures t'.order[i] != t'.order[j] {
          if j == |t.order| {
            assert t'.order[i] == t.order[i] && t.order[i] in t.rows;
          } else {
            assert t'.order[i] == t.order[i] && t'.order[j] == t.order[j];
          }
        }
      }
    }
  }

  /** Updating with a persistable record keeps the table well formed. */
  lemma UpdateKeepsWf(t: Table, s: Student, f: StoreFault)
    requires Wf(t) && Persistable(s)
    ensures Wf(Update(t, s, f).0)
  {
  }

  /** Deleting keeps the table well formed. */
  lemma DeleteKeepsWf(t: Table, id: int, f: StoreFault)
    requires Wf(t)
    ensures Wf(Delete(t, id, f).0)
  {
    RemoveKeepsDistinct(t.order, id);
  }

  /** A delete that removes a row, whether it then reports true or throws, leaves the table one row smaller. */
  lemma DeleteShrinks(t: Table, id: int, f: StoreFault)
    requires Writes(f) && id in t.rows
    ensures |Delete(t, id, f).0.rows| == |t.rows| - 1
  {
    assert t.rows.Keys == (t.rows - {id}).Keys + {id};
  }
}
