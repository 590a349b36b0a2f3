/**
 * The `produkty` table: a collection of rows, each carrying the id the store
 * assigned (`INTEGER PRIMARY KEY AUTOINCREMENT`) and the non-id columns `F`.
 * The three revisions of the application share this store; they differ only in
 * the columns (`F`) they keep.
 *
 * The table does no validation of its own: `UPDATE ... WHERE id = ?` and
 * `DELETE ... WHERE id = ?` on an id no row carries affect zero rows and raise
 * nothing. The order of `rows` is the order of insertion; `SELECT *` without
 * `ORDER BY` promises no order, so no member here promises one to a reader.
 */
module Store {

  /** One row of the table: its id and its non-id columns. */
  datatype Row<F> = Row(id: int, fields: F)

  /**
   * The whole state of the table as a value: its rows and its AUTOINCREMENT
   * counter. A page run is specified as a function from one snapshot to the next.
   */
  datatype Snapshot<F> = Snapshot(rows: seq<Row<F>>, nextId: int)

  /**
   * The table after an insert that runs only when `ok`: the existing rows stay
   * in front, and one row with the next id and the fields `f` follows them.
   */
  function AfterInsertIf<F>(s: Snapshot<F>, ok: bool, f: F): (r: Snapshot<F>)
    ensures |r.rows| == |s.rows| + (if ok then 1 else 0)
    ensures forall i :: 0 <= i < |s.rows| ==> r.rows[i] == s.rows[i]
    ensures r.nextId == s.nextId + (|r.rows| - |s.rows|)
    ensures ok ==> r.rows[|s.rows|] == Row(s.nextId, f)
  {
    if ok then Snapshot(s.rows + [Row(s.nextId, f)], s.nextId + 1) else s
  }

  /** Some row carries `id`. */
  predicate HasId<F>(rows: seq<Row<F>>, id: int)
  {
    exists i :: 0 <= i < |rows| && rows[i].id == id
  }

  /** No two rows carry the same id (the PRIMARY KEY constraint). */
  predicate UniqueIds<F>(rows: seq<Row<F>>)
  {
    forall i, j :: 0 <= i < j < |rows| ==> rows[i].id != rows[j].id
  }

  /** The table after `DELETE FROM produkty WHERE id = ?`. */
  function Without<F>(rows: seq<Row<F>>, id: int): (r: seq<Row<F>>)
    ensures forall i :: 0 <= i < |r| ==> r[i] in rows && r[i].id != id
    ensures forall i :: 0 <= i < |rows| && rows[i].id != id ==> rows[i] in r
    ensures |r| <= |rows|
  {
    if rows == [] then []
    else (if rows[0].id == id then [] else [rows[0]]) + Without(rows[1..], id)
  }

  /** The table after `UPDATE produkty SET <all non-id columns> = f WHERE id = ?`. */
  function Replaced<F>(rows: seq<Row<F>>, id: int, f: F): (r: seq<Row<F>>)
    ensures |r| == |rows|
    ensures forall i :: 0 <= i < |rows| ==> r[i].id == rows[i].id
    ensures forall i :: 0 <= i < |rows| && rows[i].id == id ==> r[i].fields == f
    ensures forall i :: 0 <= i < |rows| && rows[i].id != id ==> r[i] == rows[i]
  {
    if rows == [] then []
    else [if rows[0].id == id then Row(id, f) else rows[0]] + Replaced(rows[1..], id, f)
  }

  /** Deleting keeps the PRIMARY KEY constraint. */
  lemma {:induction false} WithoutKeepsUnique<F>(rows: seq<Row<F>>, id: int)
    requires UniqueIds(rows)
    ensures UniqueIds(Without(rows, id))
  {
    if rows != [] {
      assert UniqueIds(rows[1..]);
      WithoutKeepsUnique(rows[1..], id);
      var tail := Without(rows[1..], id);
      forall i | 0 <= i < |tail| ensures tail[i].id != rows[0].id {
        var k :| 0 <= k < |rows[1..]| && rows[1..][k] == tail[i];
        assert rows[k + 1] == tail[i];
      }
    }
  }

  /** Deleting an id no row carries leaves the table as it was. */
  lemma {:induction false} DeleteMissingIsNoop<F>(rows: seq<Row<F>>, id: int)
    requires !HasId(rows, id)
    ensures Without(rows, id) == rows
  {
    if rows != [] {
      assert rows[0].id != id;
      forall k | 0 <= k < |rows| - 1 ensures rows[1..][k].id != id {
        assert rows[1..][k] == rows[k + 1];
      }
      DeleteMissingIsNoop(rows[1..], id);
      assert rows == [rows[0]] + rows[1..];
    }
  }

  /** Deleting an id that a row carries removes exactly that one row. */
  lemma {:induction false} DeletePresentRemovesOne<F>(rows: seq<Row<F>>, id: int)
    requires UniqueIds(rows) && HasId(rows, id)
    ensures |Without(rows, id)| == |rows| - 1
    ensures !HasId(Without(rows, id), id)
  {
    if rows[0].id == id {
      forall k | 0 <= k < |rows| - 1 ensures rows[1..][k].id != id {
        assert rows[1..][k] == rows[k + 1];
        assert rows[0].id != rows[k + 1].id;
      }
      DeleteMissingIsNoop(rows[1..], id);
    } else {
      var k :| 0 <= k < |rows| && rows[k].id == id;
      assert rows[1..][k - 1].id == id;
      assert UniqueIds(rows[1..]);
      DeletePresentRemovesOne(rows[1..], id);
    }
  }

  /** Updating an id no row carries leaves the table as it was. */
  lemma UpdateMissingIsNoop<F>(rows: seq<Row<F>>, id: int, f: F)
    requires !HasId(rows, id)
    ensures Replaced(rows, id, f) == rows
  {
  }

  /**
   * The table. `nextId` is the AUTOINCREMENT counter: the id the next insert
   * receives. It only grows, and `DELETE FROM produkty` does not reset it, so
   * an id is never issued twice.
   */
  class Table<F> {
    var rows: seq<Row<F>>
    var nextId: int

    ghost predicate Valid()
      reads this
    {
      1 <= nextId &&
      UniqueIds(rows) &&
      forall i :: 0 <= i < |rows| ==> 1 <= rows[i].id < nextId
    }

    /** The table's current state as a value. */
    function State(): (s: Snapshot<F>)
      reads this
    {
      Snapshot(rows, nextId)
    }

    /** A freshly created, empty table; the first id issued is 1. */
    constructor ()
      ensures Valid() && rows == [] && nextId == 1
    {
      rows := [];
      nextId := 1;
    }

    /** `INSERT INTO produkty (...) VALUES (...)`: returns the id it issued. */
    method Insert(f: F) returns (id: int)
      requires Valid()
      modifies this
      ensures Valid()
      ensures id == old(nextId) && nextId == id + 1
      ensures forall i :: 0 <= i < |old(rows)| ==> old(rows)[i].id < id
      ensures rows == old(rows) + [Row(id, f)]
    {
      id := nextId;
      rows := rows + [Row(id, f)];
      nextId := nextId + 1;
    }

    /** `DELETE FROM produkty WHERE id = ?`: a missing id affects no row. */
    method Delete(id: int)
      requires Valid()
      modifies this
      ensures Valid()
      ensures rows == Without(old(rows), id) && nextId == old(nextId)
    {
      WithoutKeepsUnique(rows, id);
      rows := Without(rows, id);
    }

    /** `UPDATE produkty SET ... WHERE id = ?`: replaces every non-id column of the row with that id. */
    method Update(id: int, f: F)
      requires Valid()
      modifies this
      ensures Valid()
      ensures rows == Replaced(old(rows), id, f) && nextId == old(nextId)
    {
      rows := Replaced(rows, id, f);
    }

    /** `DELETE FROM produkty`: empties the table but keeps the counter. */
    method DeleteAll()
      requires Valid()
      modifies this
      ensures Valid()
      ensures rows == [] && nextId == old(nextId)
    {
      rows := [];
    }
  }
}
