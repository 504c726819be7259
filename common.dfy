/** Identifiers, clock values, money and the error outcomes shared by every table and service. */
module Common {

  /** A row identifier; stands for the UUIDs the services draw with uuid.New(). */
  type Id = nat

  /** The zero UUID (uuid.Nil), the value of an identifier field nobody has set. */
  const NilId: Id := 0

  /** A clock reading; stands for time.Now(). Larger is later. */
  type Time = nat

  /** The zero time.Time, the value of a timestamp field nobody has set. */
  const ZeroTime: Time := 0

  /** An amount of money in integer minor units (the source keeps these as float64). */
  type Money = int

  datatype Option<+T> = None | Some(value: T)

  /** The caller-visible failures of the core, one per error the source returns. */
  datatype Error =
    | NotFound             // sql.ErrNoRows: the row is missing or soft-deleted
    | InsufficientQuota    // "insufficient ticket quota"
    | InvalidStatus        // "invalid status"
    | InvalidPaymentStatus // "invalid payment status"
    | QuotaBelowSold       // "new quota cannot be less than sold tickets"
    | HasSoldTickets       // "cannot delete ticket type with sold tickets"
    | QuantityNotPositive  // "quantity must be positive"
    | EmailTaken           // "email already registered"
    | PhoneTaken           // "phone number already registered"

  /** A value or the error that prevented it (the source's `(T, error)` pair). */
  datatype Result<+T> = Ok(value: T) | Err(error: Error)

  /** Success or an error, for operations that return only `error`. */
  datatype Outcome = Pass | Fail(error: Error)
}
