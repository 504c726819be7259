/**
 * The ticket-type lifecycle (service/ticket_type_service.go): creation with a full remaining
 * quota, partial update with a resize that keeps the sold count, deletion only while nothing is
 * sold, and the guarded reservation entry point.
 */
module TicketTypes {
  import opened Common
  import opened Models
  import opened BaseRepository
  import opened TicketTypeRepository

  datatype CreateTicketTypeRequest = CreateTicketTypeRequest(
    eventId: Id,
    name: string,
    description: string,
    price: Money,
    quota: int)

  /** The optional fields of an update: an empty string or `None` leaves the field as it is. */
  datatype UpdateTicketTypeRequest = UpdateTicketTypeRequest(
    name: string,
    description: string,
    price: Option<Money>,
    quota: Option<int>)

  class TicketTypeService {
    const repo: Repository<TicketType>

    constructor (repo: Repository<TicketType>)
      ensures this.repo == repo
    {
      this.repo := repo;
    }

    /**
     * CreateTicketType: stores a new ticket type with the requested event, name, description,
     * price and quota, and with its whole quota remaining. `id` and `now` stand for uuid.New()
     * and time.Now().
     */
    method CreateTicketType(req: CreateTicketTypeRequest, id: Id, now: Time) returns (r: Row<TicketType>)
      requires repo.Valid() && id !in Ids(repo.rows)
      modifies repo
      ensures repo.Valid()
      ensures repo.rows == old(repo.rows) + [r]
      ensures r.id == id && r.createdAt == now && r.updatedAt == now && Live(r)
      ensures r.data == TicketType(req.eventId, req.name, req.description, req.price, req.quota, req.quota)
      ensures r.data.remainingQuota == r.data.quota && Sold(r.data) == 0
      ensures QuotaInRange(r.data) <==> req.quota >= 0
      ensures AllInRange(old(repo.rows)) && req.quota >= 0 ==> AllInRange(repo.rows)
      ensures FindById(repo.rows, id) == Ok(r)
    {
      r := Row(id, now, now, None, TicketType(req.eventId, req.name, req.description, req.price, req.quota, req.quota));
      repo.Create(r);
      FindByIdAt(repo.rows, |repo.rows| - 1);
    }

    /**
     * UpdateTicketType: overwrites the fields the request supplies. A new quota below the sold
     * count fails and writes nothing; otherwise quota and remaining quota move by the same amount.
     */
    method UpdateTicketType(id: Id, req: UpdateTicketTypeRequest, now: Time) returns (r: Result<Row<TicketType>>)
      requires repo.Valid()
      modifies repo
      ensures repo.Valid()
      ensures r.Err? ==> repo.rows == old(repo.rows)
      ensures FindById(old(repo.rows), id).Err? ==> r == Err(NotFound)
      ensures FindById(old(repo.rows), id).Ok? ==>
        var x := FindById(old(repo.rows), id).value;
        && (req.quota.Some? && req.quota.value < Sold(x.data) <==> r == Err(QuotaBelowSold))
        && (r.Ok? <==> !(req.quota.Some? && req.quota.value < Sold(x.data)))
      ensures r.Ok? ==>
        var x := FindById(old(repo.rows), id).value;
        var t := r.value;
        && FindById(old(repo.rows), id).Ok?
        && t.id == id && t.createdAt == x.createdAt && t.updatedAt == now && t.deletedAt == x.deletedAt
        && t.data.eventId == x.data.eventId
        && t.data.name == (if req.name != "" then req.name else x.data.name)
        && t.data.description == (if req.description != "" then req.description else x.data.description)
        && t.data.price == (if req.price.Some? then req.price.value else x.data.price)
        && t.data.quota == (if req.quota.Some? then req.quota.value else x.data.quota)
        && t.data.remainingQuota == x.data.remainingQuota + (t.data.quota - x.data.quota)
        && Sold(t.data) == Sold(x.data)
        && (QuotaInRange(x.data) ==> QuotaInRange(t.data))
        && repo.rows == Replaced(old(repo.rows), t)
        && FindById(repo.rows, id) == Ok(t)
      ensures AllInRange(old(repo.rows)) ==> AllInRange(repo.rows)
    {
      var found := FindById(repo.rows, id);
      if found.Err? {
        return Err(found.error);
      }
      var ticketType := found.value;

      if req.name != "" {
        ticketType := ticketType.(data := ticketType.data.(name := req.name));
      }
      if req.description != "" {
        ticketType := ticketType.(data := ticketType.data.(description := req.description));
      }
      if req.price.Some? {
        ticketType := ticketType.(data := ticketType.data.(price := req.price.value));
      }
      if req.quota.Some? {
        if req.quota.value < ticketType.data.quota - ticketType.data.remainingQuota {
          return Err(QuotaBelowSold);
        }
        var quotaDiff := req.quota.value - ticketType.data.quota;
        ticketType := ticketType.(data := ticketType.data.(
          quota := req.quota.value,
          remainingQuota := ticketType.data.remainingQuota + quotaDiff));
      }
      ticketType := ticketType.(updatedAt := now);

      if AllInRange(repo.rows) {
        ReplacedKeepsRange(repo.rows, ticketType);
      }
      ReplacedFound(repo.rows, ticketType);
      repo.Update(ticketType);
      r := Ok(ticketType);
    }

    /**
     * DeleteTicketType: allowed only while no ticket is sold (quota == remaining quota); marks the
     * record deleted (its deletion time is Go's zero time) and persists it, hiding it from lookups.
     */
    method DeleteTicketType(id: Id) returns (r: Outcome)
      requires repo.Valid()
      modifies repo
      ensures repo.Valid()
      ensures r.Fail? ==> repo.rows == old(repo.rows)
      ensures FindById(old(repo.rows), id).Err? ==> r == Fail(NotFound)
      ensures FindById(old(repo.rows), id).Ok? ==>
        var x := FindById(old(repo.rows), id).value;
        && (x.data.quota != x.data.remainingQuota <==> r == Fail(HasSoldTickets))
        && (r == Pass <==> x.data.quota == x.data.remainingQuota)
      ensures r == Pass ==>
        var x := FindById(old(repo.rows), id).value;
        && repo.rows == Replaced(old(repo.rows), x.(deletedAt := Some(ZeroTime)))
        && FindById(repo.rows, id) == Err(NotFound)
        && forall i :: 0 <= i < |old(repo.rows)| && old(repo.rows)[i].id != id ==> repo.rows[i] == old(repo.rows)[i]
      ensures AllInRange(old(repo.rows)) ==> AllInRange(repo.rows)
    {
      var found := FindById(repo.rows, id);
      if found.Err? {
        return Fail(found.error);
      }
      var ticketType := found.value;
      if ticketType.data.quota != ticketType.data.remainingQuota {
        return Fail(HasSoldTickets);
      }
      ticketType := ticketType.(deletedAt := Some(ZeroTime));
      if AllInRange(repo.rows) {
        ReplacedKeepsRange(repo.rows, ticketType);
      }
      ReplacedFound(repo.rows, ticketType);
      repo.Update(ticketType);
      r := Pass;
    }

    /** UpdateQuota: rejects a non-positive quantity before touching the table, then reserves. */
    method UpdateQuota(id: Id, quantity: int) returns (r: Outcome)
      requires repo.Valid()
      modifies repo
      ensures repo.Valid()
      ensures quantity <= 0 ==> r == Fail(QuantityNotPositive) && repo.rows == old(repo.rows)
      ensures quantity > 0 && Reserved(old(repo.rows), id, quantity).None? ==>
        r == Fail(InsufficientQuota) && repo.rows == old(repo.rows)
      ensures quantity > 0 && Reserved(old(repo.rows), id, quantity).Some? ==>
        r == Pass && repo.rows == Reserved(old(repo.rows), id, quantity).value
      ensures AllInRange(old(repo.rows)) ==> AllInRange(repo.rows)
    {
      if quantity <= 0 {
        return Fail(QuantityNotPositive);
      }
      if Reserved(repo.rows, id, quantity).Some? && AllInRange(repo.rows) {
        ReserveKeepsRange(repo.rows, id, quantity);
      }
      r := TicketTypeRepository.UpdateQuota(repo, id, quantity);
    }
  }
}
