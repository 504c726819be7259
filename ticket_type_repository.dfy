/**
 * The ticket-type table's own statements (repository/ticket_type_repository.go): the two
 * per-event listings and the conditional decrement that reserves quota.
 */
module TicketTypeRepository {
  import opened Common
  import opened Models
  import opened BaseRepository

  /** FindByEventId: the live ticket types of the event. */
  function FindByEventId(rows: seq<Row<TicketType>>, eventId: Id): (r: seq<Row<TicketType>>)
    ensures forall i :: 0 <= i < |r| ==> r[i] in rows && Live(r[i]) && r[i].data.eventId == eventId
    ensures forall i :: 0 <= i < |rows| && Live(rows[i]) && rows[i].data.eventId == eventId ==> rows[i] in r
    ensures multiset(r) <= multiset(rows)
  {
    Select(rows, (t: Row<TicketType>) => Live(t) && t.data.eventId == eventId)
  }

  /** FindAvailable: the live ticket types of the event that have quota left. */
  function FindAvailable(rows: seq<Row<TicketType>>, eventId: Id): (r: seq<Row<TicketType>>)
    ensures forall i :: 0 <= i < |r| ==>
      r[i] in rows && Live(r[i]) && r[i].data.eventId == eventId && r[i].data.remainingQuota > 0
    ensures forall i :: 0 <= i < |rows| && Live(rows[i]) && rows[i].data.eventId == eventId && rows[i].data.remainingQuota > 0 ==>
      rows[i] in r
    ensures multiset(r) <= multiset(rows)
  {
    Select(rows, (t: Row<TicketType>) => Live(t) && t.data.eventId == eventId && t.data.remainingQuota > 0)
  }

  /** The inventory invariant: remaining quota never negative and never above the total. */
  predicate QuotaInRange(t: TicketType) {
    0 <= t.remainingQuota <= t.quota
  }

  ghost predicate AllInRange(rows: seq<Row<TicketType>>) {
    forall i :: 0 <= i < |rows| ==> QuotaInRange(rows[i].data)
  }

  /** Persisting a ticket type whose quota is in range keeps every ticket type's quota in range. */
  lemma ReplacedKeepsRange(rows: seq<Row<TicketType>>, record: Row<TicketType>)
    requires AllInRange(rows) && QuotaInRange(record.data)
    ensures AllInRange(Replaced(rows, record))
  {
  }

  /** The number of tickets already sold. */
  function Sold(t: TicketType): int {
    t.quota - t.remainingQuota
  }

  // ---------------------------------------------------------------- reservation

  /** The WHERE clause of the decrement: this id, live, and enough remaining. */
  predicate Reservable(r: Row<TicketType>, id: Id, quantity: int) {
    r.id == id && Live(r) && r.data.remainingQuota >= quantity
  }

  /**
   * The table after `UPDATE ticket_types SET remaining_quota = remaining_quota - $1
   * WHERE id = $2 AND deleted_at IS NULL AND remaining_quota >= $1`.
   */
  function Decremented(rows: seq<Row<TicketType>>, id: Id, quantity: int): seq<Row<TicketType>> {
    seq(|rows|, i requires 0 <= i < |rows| =>
      if Reservable(rows[i], id, quantity)
      then rows[i].(data := rows[i].data.(remainingQuota := rows[i].data.remainingQuota - quantity))
      else rows[i])
  }

  /** UpdateQuota as one atomic step: the new table, or None when the statement affected no row. */
  function Reserved(rows: seq<Row<TicketType>>, id: Id, quantity: int): Option<seq<Row<TicketType>>> {
    if exists i :: 0 <= i < |rows| && Reservable(rows[i], id, quantity) then Some(Decremented(rows, id, quantity))
    else None
  }

  /** The row with its remaining quota set to `remaining` and every other column as it was. */
  function WithRemaining(x: Row<TicketType>, remaining: int): Row<TicketType> {
    x.(data := x.data.(remainingQuota := remaining))
  }

  /**
   * A live ticket type with at least `quantity` remaining is reserved: its remaining quota drops by
   * exactly `quantity` (and stays non-negative), and no other row or column changes.
   */
  lemma {:induction false} ReserveSucceeds(rows: seq<Row<TicketType>>, id: Id, quantity: int)
    requires UniqueIds(rows)
    requires FindById(rows, id).Ok? && FindById(rows, id).value.data.remainingQuota >= quantity
    ensures Reserved(rows, id, quantity).Some?
    ensures var x := FindById(rows, id).value;
      var r := Reserved(rows, id, quantity).value;
      && UniqueIds(r)
      && |r| == |rows|
      && FindById(r, id) == Ok(WithRemaining(x, x.data.remainingQuota - quantity))
      && FindById(r, id).value.data.remainingQuota >= 0
      && forall i :: 0 <= i < |rows| && rows[i].id != id ==> r[i] == rows[i]
  {
    var x := FindById(rows, id).value;
    var k :| 0 <= k < |rows| && rows[k] == x;
    assert Reservable(rows[k], id, quantity);
    DecrementedKeys(rows, id, quantity);
    SameKeysLookup(rows, Decremented(rows, id, quantity), id, k);
  }

  /** The decrement changes remaining quotas only, and only of the rows its WHERE clause selects. */
  lemma DecrementedKeys(rows: seq<Row<TicketType>>, id: Id, quantity: int)
    ensures |Decremented(rows, id, quantity)| == |rows|
    ensures forall i :: 0 <= i < |rows| ==>
      && Decremented(rows, id, quantity)[i].id == rows[i].id
      && Decremented(rows, id, quantity)[i].deletedAt == rows[i].deletedAt
      && Decremented(rows, id, quantity)[i] ==
           if Reservable(rows[i], id, quantity) then WithRemaining(rows[i], rows[i].data.remainingQuota - quantity) else rows[i]
  {
  }

  /**
   * A missing or deleted ticket type, or one with less remaining than `quantity`, is not reserved:
   * UpdateQuota reports "insufficient ticket quota" and the table is unchanged.
   */
  lemma ReserveFails(rows: seq<Row<TicketType>>, id: Id, quantity: int)
    requires UniqueIds(rows)
    requires FindById(rows, id).Err? || FindById(rows, id).value.data.remainingQuota < quantity
    ensures Reserved(rows, id, quantity) == None
  {
    if exists i :: 0 <= i < |rows| && Reservable(rows[i], id, quantity) {
      var i :| 0 <= i < |rows| && Reservable(rows[i], id, quantity);
      FindByIdAt(rows, i);
    }
  }

  /** A reservation of a non-negative quantity keeps every ticket type's quota in range. */
  lemma ReserveKeepsRange(rows: seq<Row<TicketType>>, id: Id, quantity: int)
    requires AllInRange(rows) && quantity >= 0
    requires Reserved(rows, id, quantity).Some?
    ensures AllInRange(Reserved(rows, id, quantity).value)
  {
  }

  /** The "last ticket" race, sequentially: of two reservations of 1 against 1 remaining, the first wins and the second fails. */
  lemma LastTicket(rows: seq<Row<TicketType>>, id: Id)
    requires UniqueIds(rows)
    requires FindById(rows, id).Ok? && FindById(rows, id).value.data.remainingQuota == 1
    ensures Reserved(rows, id, 1).Some?
    ensures Reserved(Reserved(rows, id, 1).value, id, 1) == None
    ensures FindById(Reserved(rows, id, 1).value, id).Ok?
    ensures FindById(Reserved(rows, id, 1).value, id).value.data.remainingQuota == 0
  {
    ReserveSucceeds(rows, id, 1);
    ReserveFails(Reserved(rows, id, 1).value, id, 1);
  }

  /** UpdateQuota: the conditional decrement, one atomic step; no row affected is an error. */
  method UpdateQuota(repo: Repository<TicketType>, id: Id, quantity: int) returns (r: Outcome)
    requires repo.Valid()
    modifies repo
    ensures repo.Valid()
    ensures Reserved(old(repo.rows), id, quantity).None? ==> r == Fail(InsufficientQuota) && repo.rows == old(repo.rows)
    ensures Reserved(old(repo.rows), id, quantity).Some? ==> r == Pass && repo.rows == Reserved(old(repo.rows), id, quantity).value
  {
    var next := Reserved(repo.rows, id, quantity);
    if next.None? {
      return Fail(InsufficientQuota);
    }
    assert forall i :: 0 <= i < |repo.rows| ==> next.value[i].id == repo.rows[i].id;
    repo.rows := next.value;
    r := Pass;
  }

  // ---------------------------------------------------------------- compensation

  /**
   * The table after `UPDATE ticket_types SET remaining_quota = remaining_quota + $1 WHERE id = $2`.
   * The source has no such statement; the compensated purchase workflow uses it to return quota.
   */
  function Released(rows: seq<Row<TicketType>>, id: Id, quantity: int): seq<Row<TicketType>> {
    seq(|rows|, i requires 0 <= i < |rows| =>
      if rows[i].id == id then WithRemaining(rows[i], rows[i].data.remainingQuota + quantity) else rows[i])
  }

  /** Releasing what a successful reservation took gives back exactly the table before it. */
  lemma ReleaseUndoesReserve(rows: seq<Row<TicketType>>, id: Id, quantity: int)
    requires UniqueIds(rows)
    requires Reserved(rows, id, quantity).Some?
    ensures Released(Reserved(rows, id, quantity).value, id, quantity) == rows
  {
    var k :| 0 <= k < |rows| && Reservable(rows[k], id, quantity);
    var back := Released(Reserved(rows, id, quantity).value, id, quantity);
    forall i | 0 <= i < |rows| ensures back[i] == rows[i] {
      if rows[i].id == id {
        assert i == k;
      }
    }
  }

  /** ReleaseQuota: returns quantity tickets to the ticket type with the id. */
  method ReleaseQuota(repo: Repository<TicketType>, id: Id, quantity: int)
    requires repo.Valid()
    modifies repo
    ensures repo.Valid()
    ensures repo.rows == Released(old(repo.rows), id, quantity)
  {
    var next := Released(repo.rows, id, quantity);
    assert forall i :: 0 <= i < |repo.rows| ==> next[i].id == repo.rows[i].id;
    repo.rows := next;
  }
}
