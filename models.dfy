/** The records stored in the four tables of the core (models/models.go). */
module Models {
  import opened Common

  /**
   * One table row: the BaseModel columns every table shares, and the entity's own columns.
   * `deletedAt == None` is a live row; `Some(t)` is a row soft-deleted at time t.
   */
  datatype Row<T> = Row(id: Id, createdAt: Time, updatedAt: Time, deletedAt: Option<Time>, data: T)

  datatype User = User(fullname: string, email: string, password: string, phone: string)

  /** A purchasable category of admission for one event, with its total and remaining quota. */
  datatype TicketType = TicketType(
    eventId: Id,
    name: string,
    description: string,
    price: Money,
    quota: int,
    remainingQuota: int)

  /** One purchase attempt; the payment columns are those the transaction repository reads and writes. */
  datatype Transaction = Transaction(
    userId: Id,
    eventId: Id,
    totalAmount: Money,
    status: string,
    paymentMethod: string,
    paymentStatus: string,
    paymentUrl: string,
    paymentCallback: string)

  /** One line item: a ticket type bought in some quantity at the price in effect at purchase time. */
  datatype TransactionDetail = TransactionDetail(
    transactionId: Id,
    ticketTypeId: Id,
    quantity: int,
    pricePerTicket: Money,
    subtotal: Money)

  /** A record whose every column holds Go's zero value. */
  function ZeroRow<T>(data: T): Row<T> {
    Row(NilId, ZeroTime, ZeroTime, None, data)
  }

  const ZeroTicketType: TicketType := TicketType(NilId, "", "", 0, 0, 0)

  const ZeroDetail: TransactionDetail := TransactionDetail(NilId, NilId, 0, 0, 0)

  const ZeroUser: User := User("", "", "", "")
}
