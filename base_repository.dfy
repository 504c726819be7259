/**
 * The generic repository every table embeds (repository/base_repository.go): selection of live
 * rows, lookup by id, and soft delete. A table is modelled as the sequence of its rows; the
 * statements the repositories issue are functions from one table to the next.
 */
module BaseRepository {
  import opened Common
  import opened Models

  /** A row is visible to every lookup exactly when `deleted_at IS NULL`. */
  predicate Live<T(==)>(r: Row<T>) {
    r.deletedAt.None?
  }

  function Ids<T(==)>(rows: seq<Row<T>>): set<Id> {
    set r | r in rows :: r.id
  }

  /** The primary-key invariant every table keeps: no two rows share an id. */
  ghost predicate UniqueIds<T>(rows: seq<Row<T>>) {
    forall i, j :: 0 <= i < j < |rows| ==> rows[i].id != rows[j].id
  }

  /** The rows a `WHERE` condition keeps. SQL promises no order without ORDER BY, so the contract says which rows, not in what order. */
  function Select<T(==)>(rows: seq<Row<T>>, where: Row<T> -> bool): (r: seq<Row<T>>)
    ensures |r| <= |rows|
    ensures forall i :: 0 <= i < |r| ==> r[i] in rows && where(r[i])
    ensures forall i :: 0 <= i < |rows| && where(rows[i]) ==> rows[i] in r
    ensures multiset(r) <= multiset(rows)
  {
    if rows == [] then []
    else
      assert rows == [rows[0]] + rows[1..];
      (if where(rows[0]) then [rows[0]] else []) + Select(rows[1..], where)
  }

  /** FindAll: `SELECT * ... WHERE deleted_at IS NULL`. */
  function FindAll<T(==)>(rows: seq<Row<T>>): (r: seq<Row<T>>)
    ensures forall i :: 0 <= i < |r| ==> r[i] in rows && Live(r[i])
    ensures forall i :: 0 <= i < |rows| && Live(rows[i]) ==> rows[i] in r
    ensures multiset(r) <= multiset(rows)
  {
    Select(rows, (x: Row<T>) => Live(x))
  }

  /** With unique ids every row of the table occurs in it once. */
  lemma {:induction false} UniqueRowsOnce<T>(rows: seq<Row<T>>, k: nat)
    requires UniqueIds(rows) && k < |rows|
    ensures multiset(rows)[rows[k]] == 1
  {
    if k == 0 {
      assert rows == [rows[0]] + rows[1..];
      assert rows[0] !in rows[1..] by {
        forall j | 0 <= j < |rows[1..]| ensures rows[1..][j] != rows[0] {
          assert rows[1..][j].id == rows[j + 1].id;
        }
      }
    } else {
      assert rows == [rows[0]] + rows[1..];
      assert rows[0].id != rows[k].id;
      UniqueRowsOnce(rows[1..], k - 1);
    }
  }

  /** With unique ids FindAll returns every live row exactly once. */
  lemma FindAllOnce<T>(rows: seq<Row<T>>, k: nat)
    requires UniqueIds(rows) && k < |rows| && Live(rows[k])
    ensures multiset(FindAll(rows))[rows[k]] == 1
  {
    UniqueRowsOnce(rows, k);
  }

  /** FindById: `... WHERE id = $1 AND deleted_at IS NULL`; no such row is sql.ErrNoRows. */
  function FindById<T(==)>(rows: seq<Row<T>>, id: Id): (r: Result<Row<T>>)
    ensures r.Ok? <==> exists i :: 0 <= i < |rows| && rows[i].id == id && Live(rows[i])
    ensures r.Ok? ==> r.value in rows && r.value.id == id && Live(r.value)
    ensures r.Err? ==> r.error == NotFound
  {
    if rows == [] then Err(NotFound)
    else if rows[0].id == id && Live(rows[0]) then Ok(rows[0])
    else FindById(rows[1..], id)
  }

  /** Under the primary-key invariant, the live row with the id is the one FindById returns. */
  lemma FindByIdAt<T>(rows: seq<Row<T>>, i: nat)
    requires UniqueIds(rows)
    requires i < |rows| && Live(rows[i])
    ensures FindById(rows, rows[i].id) == Ok(rows[i])
  {
    var r := FindById(rows, rows[i].id);
    var j :| 0 <= j < |rows| && rows[j] == r.value;
    assert rows[j].id == rows[i].id;
  }

  /** A row whose id is not `id`, or which is deleted, is never what FindById(rows, id) returns. */
  lemma FindByIdMissing<T>(rows: seq<Row<T>>, id: Id)
    requires forall i :: 0 <= i < |rows| && rows[i].id == id ==> !Live(rows[i])
    ensures FindById(rows, id) == Err(NotFound)
  {
  }

  // ---------------------------------------------------------------- soft delete

  /** The table after `UPDATE t SET deleted_at = NOW() WHERE id = $1` (no filter on deleted_at). */
  function SoftDeleted<T(==)>(rows: seq<Row<T>>, id: Id, now: Time): seq<Row<T>> {
    seq(|rows|, i requires 0 <= i < |rows| =>
      if rows[i].id == id then rows[i].(deletedAt := Some(now)) else rows[i])
  }

  /** After Delete(id) the row is hidden from FindById and from FindAll, and the ids stay unique. */
  lemma DeleteHides<T>(rows: seq<Row<T>>, id: Id, now: Time)
    requires UniqueIds(rows)
    ensures UniqueIds(SoftDeleted(rows, id, now))
    ensures FindById(SoftDeleted(rows, id, now), id) == Err(NotFound)
    ensures forall x :: x in FindAll(SoftDeleted(rows, id, now)) ==> x.id != id
  {
    var r := SoftDeleted(rows, id, now);
    FindByIdMissing(r, id);
  }

  /** Delete changes only the `deleted_at` column, and only of the rows with that id. */
  lemma DeleteTouchesOnlyDeletedAt<T>(rows: seq<Row<T>>, id: Id, now: Time)
    ensures |SoftDeleted(rows, id, now)| == |rows|
    ensures forall i :: 0 <= i < |rows| ==>
      var r := SoftDeleted(rows, id, now)[i];
      && r.(deletedAt := rows[i].deletedAt) == rows[i]
      && (rows[i].id != id ==> r == rows[i])
  {
  }

  /** Deleting an id the table does not hold is not an error and changes nothing. */
  lemma DeleteUnknownIsNoop<T>(rows: seq<Row<T>>, id: Id, now: Time)
    requires id !in Ids(rows)
    ensures SoftDeleted(rows, id, now) == rows
  {
    var r := SoftDeleted(rows, id, now);
    forall i | 0 <= i < |rows| ensures r[i] == rows[i] {
      assert rows[i] in rows;
    }
  }

  /** Deleting an already-deleted row re-stamps it but hides and reveals nothing. */
  lemma DeleteAgainKeepsVisibility<T>(rows: seq<Row<T>>, id: Id, now: Time)
    requires FindById(rows, id).Err?
    ensures forall x :: x in FindAll(SoftDeleted(rows, id, now)) <==> x in FindAll(rows)
  {
    var r := SoftDeleted(rows, id, now);
    forall x ensures x in r && Live(x) <==> x in rows && Live(x) {
      if x in r && Live(x) {
        var i :| 0 <= i < |r| && r[i] == x;
        assert rows[i].id != id;
      }
      if x in rows && Live(x) {
        var i :| 0 <= i < |rows| && rows[i] == x;
        assert r[i] == x;
      }
    }
  }

  /** Deleting the row just inserted with a fresh id stamps that row and no other. */
  lemma DeleteNewest<T>(rows: seq<Row<T>>, record: Row<T>, now: Time)
    requires record.id !in Ids(rows)
    ensures SoftDeleted(rows + [record], record.id, now) == rows + [record.(deletedAt := Some(now))]
  {
    var r := SoftDeleted(rows + [record], record.id, now);
    forall i | 0 <= i < |rows| ensures r[i] == rows[i] {
      assert rows[i] in rows;
    }
  }

  /** Lookups of every other id see the same row before and after Delete(id). */
  lemma DeleteKeepsOtherLookups<T>(rows: seq<Row<T>>, id: Id, other: Id, now: Time)
    requires other != id
    ensures FindById(SoftDeleted(rows, id, now), other) == FindById(rows, other)
    decreases |rows|
  {
    if rows != [] {
      assert SoftDeleted(rows, id, now)[1..] == SoftDeleted(rows[1..], id, now);
      DeleteKeepsOtherLookups(rows[1..], id, other, now);
    }
  }

  // ---------------------------------------------------------------- column updates

  /**
   * The table after `UPDATE t SET <columns>, updated_at = $t WHERE id = $id AND deleted_at IS NULL`,
   * where `assign` says what the listed columns become. No other column can change.
   */
  function UpdateLive<T(==)>(rows: seq<Row<T>>, id: Id, updatedAt: Time, assign: T -> T): seq<Row<T>> {
    seq(|rows|, i requires 0 <= i < |rows| =>
      if rows[i].id == id && Live(rows[i]) then rows[i].(updatedAt := updatedAt, data := assign(rows[i].data))
      else rows[i])
  }

  /** An UPDATE whose id matches no live row affects no row and is not an error. */
  lemma UpdateLiveMissing<T>(rows: seq<Row<T>>, id: Id, updatedAt: Time, assign: T -> T)
    requires FindById(rows, id).Err?
    ensures UpdateLive(rows, id, updatedAt, assign) == rows
  {
    var r := UpdateLive(rows, id, updatedAt, assign);
    forall i | 0 <= i < |rows| ensures r[i] == rows[i] {
      assert rows[i] in rows;
    }
  }

  /**
   * An UPDATE of the live row with the id rewrites that row's listed columns and its updated_at,
   * keeps its id, created_at and deleted_at, and leaves every other row as it was.
   */
  lemma UpdateLiveFound<T>(rows: seq<Row<T>>, id: Id, updatedAt: Time, assign: T -> T)
    requires UniqueIds(rows)
    requires FindById(rows, id).Ok?
    ensures var x := FindById(rows, id).value;
      var r := UpdateLive(rows, id, updatedAt, assign);
      && UniqueIds(r)
      && |r| == |rows|
      && FindById(r, id) == Ok(x.(updatedAt := updatedAt, data := assign(x.data)))
      && forall i :: 0 <= i < |rows| && rows[i].id != id ==> r[i] == rows[i]
  {
    var x := FindById(rows, id).value;
    var r := UpdateLive(rows, id, updatedAt, assign);
    var k :| 0 <= k < |rows| && rows[k] == x;
    FindByIdAt(r, k);
  }

  /** The abstract persist of a whole record: the live row with the record's id becomes that record. */
  function Replaced<T(==)>(rows: seq<Row<T>>, record: Row<T>): seq<Row<T>> {
    seq(|rows|, i requires 0 <= i < |rows| =>
      if rows[i].id == record.id && Live(rows[i]) then record else rows[i])
  }

  /** Persisting a fetched record puts it in place of the live row it came from and touches no other row. */
  lemma ReplacedFound<T>(rows: seq<Row<T>>, record: Row<T>)
    requires UniqueIds(rows)
    requires FindById(rows, record.id).Ok?
    ensures var r := Replaced(rows, record);
      && UniqueIds(r)
      && |r| == |rows|
      && (Live(record) ==> FindById(r, record.id) == Ok(record))
      && (!Live(record) ==> FindById(r, record.id) == Err(NotFound))
      && forall i :: 0 <= i < |rows| && rows[i].id != record.id ==> r[i] == rows[i]
  {
    var r := Replaced(rows, record);
    var k :| 0 <= k < |rows| && rows[k] == FindById(rows, record.id).value;
    if Live(record) {
      FindByIdAt(r, k);
    } else {
      FindByIdMissing(r, record.id);
    }
  }

  /**
   * Two tables whose rows agree position by position on id and deletion state answer every
   * lookup from the same position.
   */
  lemma {:induction false} SameKeysLookup<T>(a: seq<Row<T>>, b: seq<Row<T>>, id: Id, k: nat)
    requires |a| == |b|
    requires forall i :: 0 <= i < |a| ==> b[i].id == a[i].id && b[i].deletedAt == a[i].deletedAt
    requires UniqueIds(a)
    ensures UniqueIds(b)
    ensures FindById(b, id).Ok? <==> FindById(a, id).Ok?
    ensures k < |a| && FindById(a, id) == Ok(a[k]) ==> FindById(b, id) == Ok(b[k])
  {
    if FindById(a, id).Ok? {
      var j :| 0 <= j < |a| && a[j] == FindById(a, id).value;
      FindByIdAt(b, j);
      if k < |a| && FindById(a, id) == Ok(a[k]) {
        assert k == j;
      }
    } else {
      FindByIdMissing(b, id);
    }
  }

  /** A table: the rows its statements read and write. */
  class Repository<T(==)> {
    var rows: seq<Row<T>>

    ghost predicate Valid()
      reads this
    {
      UniqueIds(rows)
    }

    constructor ()
      ensures Valid() && rows == []
    {
      rows := [];
    }

    /** Delete: stamps deleted_at on the row(s) with the id; never reports an error. */
    method Delete(id: Id, now: Time)
      requires Valid()
      modifies this
      ensures Valid()
      ensures rows == SoftDeleted(old(rows), id, now)
      ensures FindById(rows, id) == Err(NotFound)
    {
      DeleteHides(rows, id, now);
      rows := SoftDeleted(rows, id, now);
    }

    /**
     * The generic Create as its callers use it: the record becomes a new row. The generic SQL
     * text itself is not modelled.
     */
    method Create(record: Row<T>)
      requires Valid() && record.id !in Ids(rows)
      modifies this
      ensures Valid()
      ensures rows == old(rows) + [record]
    {
      AppendFresh(rows, record);
      rows := rows + [record];
    }

    /**
     * The generic Update as its callers use it: the live row with the record's id becomes the
     * record. The generic SQL text itself is not modelled.
     */
    method Update(record: Row<T>)
      requires Valid()
      modifies this
      ensures rows == Replaced(old(rows), record)
      ensures Ids(rows) == Ids(old(rows))
      ensures Valid()
    {
      var r := Replaced(rows, record);
      assert forall i :: 0 <= i < |rows| ==> r[i].id == rows[i].id;
      assert Ids(r) == Ids(rows) by {
        forall x | x in Ids(r) ensures x in Ids(rows) {
          var i :| 0 <= i < |r| && r[i].id == x;
          assert rows[i] in rows;
        }
        forall x | x in Ids(rows) ensures x in Ids(r) {
          var i :| 0 <= i < |rows| && rows[i].id == x;
          assert r[i] in r;
        }
      }
      rows := r;
    }
  }

  /** Inserting a fresh row keeps the primary-key invariant. */
  lemma AppendFresh<T>(rows: seq<Row<T>>, record: Row<T>)
    requires UniqueIds(rows) && record.id !in Ids(rows)
    ensures UniqueIds(rows + [record])
  {
    var r := rows + [record];
    forall i, j | 0 <= i < j < |r| ensures r[i].id != r[j].id {
      if j == |rows| {
        assert rows[i] in rows;
      }
    }
  }
}
