# go-ticket: the ticket inventory and purchase workflow, verified

This project models the core of go-ticket, a Go (Fiber + PostgreSQL) ticketing backend.

Each database table is a `BaseRepository.Repository<T>`: a class whose `rows` field is the table's sequence of rows. A row carries the shared base columns (`id`, `created_at`, `updated_at`, `deleted_at`) and the entity's own columns. A row is live while `deleted_at` is NULL. Every lookup sees live rows only, and "delete" stamps `deleted_at`. The primary-key invariant `Valid()` (no two rows share an id) is kept by every method.

The SQL statements are pure functions from one table to the next:

- `SoftDeleted` for `SET deleted_at = NOW()`;
- `UpdateLive` for a column-listed `UPDATE ... WHERE id = $1 AND deleted_at IS NULL`;
- `Decremented`/`Reserved` for the conditional quota decrement.

Lemmas say what each statement does to lookups.

On top of the tables sit the services:

- **Ticket types** (`TicketTypes`): creation starts with the whole quota remaining; a resize keeps the sold count (`quota - remaining_quota`); deletion is refused once a ticket is sold; a reservation must be positive. The inventory invariant `0 <= remaining_quota <= quota` (`AllInRange`) is established by creation when the quota is non-negative. Resize, delete, the guarded reservation and the purchase workflow (with or without rollback) preserve it.
- **Purchases** (`Transactions`): `CreateTransaction` runs a validate-and-price pass that writes nothing, then inserts the transaction, reserves each line's quantity in turn and inserts the details. `CreateOutcome` is the whole workflow as a function of the three tables. The method is proved equal to it, and the lemmas say when it succeeds and what it leaves behind. This includes what it leaves when it fails halfway, because the source has no rollback.
- **Status manager**: order and payment statuses are validated against their fixed sets and written one column at a time.
- **Users** (`Users`): email and phone numbers stay unique among live users across create and update (`ContactsUnique`).

Ids (`uuid.New()`) and clock readings (`time.Now()`, SQL `NOW()`) are parameters of the operations. Inserted ids are required to be fresh.

Where the source's struct and its SQL disagree, the model follows the SQL. The `Transaction` struct in models/models.go has no `PaymentUrl`/`PaymentCallback` fields, but the transaction repository reads and writes those columns and the service sets `PaymentUrl`. `Models.Transaction` carries them.

## Model

| member | source | states |
|---|---|---|
| BaseRepository.FindAll | repository/base_repository.go:28-33 | returns exactly the live rows: every row returned is a live row of the table, and every live row is returned; no row comes back more often than the table holds it |
| BaseRepository.UniqueRowsOnce | repository/base_repository.go:28-33 | under the primary-key invariant each row occurs in the table exactly once |
| BaseRepository.FindAllOnce | repository/base_repository.go:28-33 | under the primary-key invariant FindAll returns each live row exactly once |
| BaseRepository.FindById | repository/base_repository.go:35-43 | succeeds exactly when a live row with the id exists, and then returns such a row; otherwise fails with "not found" (no row) |
| BaseRepository.FindByIdAt | repository/base_repository.go:35-43 | under the primary-key invariant, a live row is exactly what a lookup of its id returns |
| BaseRepository.FindByIdMissing | repository/base_repository.go:35-43 | when no row with the id is live, the lookup fails with "not found" |
| BaseRepository.Repository.Delete | repository/base_repository.go:62-66 | the table becomes the soft-deleted table, the primary-key invariant is kept, and the id is no longer found |
| BaseRepository.DeleteHides | repository/base_repository.go:62-66 | after deleting an id, FindById of it fails and FindAll holds no row with it; ids stay unique |
| BaseRepository.DeleteTouchesOnlyDeletedAt | repository/base_repository.go:63 | delete changes no column but `deleted_at`, and no row whose id differs |
| BaseRepository.DeleteUnknownIsNoop | repository/base_repository.go:63-65 | deleting an id the table does not hold changes nothing (and is no error) |
| BaseRepository.DeleteAgainKeepsVisibility | repository/base_repository.go:63 | deleting an id that is missing or already deleted leaves exactly the same rows visible to FindAll |
| BaseRepository.DeleteKeepsOtherLookups | repository/base_repository.go:63 | a lookup of any other id gives the same answer before and after the delete |
| BaseRepository.UpdateLiveMissing | repository/transaction_repository.go:116-124 | a column update whose id matches no live row changes nothing, and its affected-row count is never an error |
| BaseRepository.UpdateLiveFound | repository/transaction_repository.go:116-124 | a column update of a live row rewrites that row's listed columns and `updated_at`; it keeps its id, creation and deletion times and every other row; ids stay unique |
| BaseRepository.ReplacedFound | repository/base_repository.go:53-60 | persisting a fetched record replaces the live row it came from and no other; a record marked deleted is no longer found |
| BaseRepository.Repository.Create | repository/base_repository.go:45-51 | a record with a fresh id is appended as a new row and ids stay unique |
| BaseRepository.Repository.Update | repository/base_repository.go:53-60 | the live row with the record's id becomes the record; the set of ids and their uniqueness are kept |
| BaseRepository.AppendFresh | repository/base_repository.go:45-51 | inserting a row with a fresh id keeps the primary-key invariant |
| TicketTypeRepository.FindByEventId | repository/ticket_type_repository.go:22-57 | returns exactly the live ticket types of the event, none more often than the table holds it |
| TicketTypeRepository.FindAvailable | repository/ticket_type_repository.go:59-95 | returns exactly the live ticket types of the event with remaining quota above zero, none more often than the table holds it |
| TicketTypeRepository.ReserveSucceeds | repository/ticket_type_repository.go:97-120 | a live ticket type with at least `quantity` remaining is reserved: its remaining quota drops by exactly `quantity` and stays non-negative, no other column or row changes, ids stay unique |
| TicketTypeRepository.ReserveFails | repository/ticket_type_repository.go:97-118 | a missing or deleted ticket type, or one with less than `quantity` remaining, is not reserved |
| TicketTypeRepository.ReserveKeepsRange | repository/ticket_type_repository.go:100-103 | a reservation of a non-negative quantity keeps `0 <= remaining_quota <= quota` for every ticket type |
| TicketTypeRepository.LastTicket | repository/ticket_type_repository.go:97-120 | with one ticket left, a first reservation of 1 succeeds and leaves 0; a second one fails |
| TicketTypeRepository.UpdateQuota | repository/ticket_type_repository.go:97-121 | when the conditional decrement affects no row, "insufficient ticket quota" and the table is unchanged; otherwise success and the table is the reserved table |
| TicketTypeRepository.ReleaseUndoesReserve | service/transaction_service.go:120 | returning what a successful reservation took restores the table exactly |
| TicketTypeRepository.ReleaseQuota | service/transaction_service.go:120 | the table becomes the one with the quantity returned to the ticket type |
| TransactionRepository.OrderNewestFirst | repository/transaction_repository.go:29 | a newest-first ordering of the same rows (equal multisets) |
| TransactionRepository.FindByUserId | repository/transaction_repository.go:23-57 | returns exactly the live transactions of the user, ordered by creation time, newest first, none more often than the table holds it |
| TransactionRepository.FindWithDetails | repository/transaction_repository.go:59-114 | no joined row gives no transaction. Otherwise the header and user come from the first row, there is one detail per row, the first detail is the first row's, and every later detail is an unscanned zero value |
| TransactionRepository.FindWithDetailsScanned | repository/transaction_repository.go:59-114 | as intended: header and user from the first row; detail k is row k's detail with its ticket type, in row order |
| TransactionRepository.UpdateStatus | repository/transaction_repository.go:116-124 | only `status` and `updated_at` of the matching live row change; a missing or deleted id changes nothing |
| TransactionRepository.UpdatePaymentStatus | repository/transaction_repository.go:126-134 | only `payment_status` and `updated_at` of the matching live row change; a missing or deleted id changes nothing |
| TransactionRepository.Create | repository/transaction_repository.go:136-164 | appends a live row holding exactly the transaction's values, found by its id afterwards |
| TransactionRepository.Update | repository/transaction_repository.go:166-189 | the table becomes the one with total, status, payment columns and `updated_at` of the matching live row rewritten |
| TransactionRepository.UpdateKeepsOwnership | repository/transaction_repository.go:166-189 | Update never changes any row's id, user, event, creation time or deletion state |
| TransactionRepository.UpdateSkipsDeleted | repository/transaction_repository.go:176 | Update of a missing or deleted transaction changes nothing |
| TicketTypes.TicketTypeService.CreateTicketType | service/ticket_type_service.go:53-74 | the new live row has the requested event, name, description, price and quota, with remaining quota equal to the quota (nothing sold); it is in range exactly when the quota is non-negative, and is found by its id |
| TicketTypes.TicketTypeService.UpdateTicketType | service/ticket_type_service.go:76-111 | "not found" for a missing or deleted id. For a found row, a new quota below the sold count fails and writes nothing; the update succeeds exactly when it is not. On success empty name or description and absent price or quota leave those fields; quota and remaining move by the same amount, so the sold count is kept; the range invariant is preserved; only that row is persisted |
| TicketTypes.TicketTypeService.DeleteTicketType | service/ticket_type_service.go:113-125 | "not found" for a missing or deleted id; refused exactly when some ticket is sold (quota differs from remaining), writing nothing; otherwise the row is marked deleted, hidden from lookups, and no other row changes; the range invariant is preserved |
| TicketTypes.TicketTypeService.UpdateQuota | service/ticket_type_service.go:127-133 | a quantity of zero or less is refused before the table is touched; otherwise the outcome and table are those of the conditional decrement; the range invariant is preserved |
| Transactions.PriceLine | service/transaction_service.go:68-92 | a line prices exactly when its ticket type is live with the quantity left, as a detail at that ticket type's current price with subtotal price times quantity; otherwise "not found" for a missing or deleted ticket type, "insufficient ticket quota" for too little left |
| Transactions.PricedShape | service/transaction_service.go:68-92 | validation succeeds exactly when every line is available on its own, and yields one detail per line, in order, each that line priced |
| Transactions.PricedSticks | service/transaction_service.go:69-76 | once a line fails validation, the later lines are never looked at |
| Transactions.PricedFirstError | service/transaction_service.go:68-76 | the error reported is that of the first unavailable line |
| Transactions.DemandCoversLine | service/transaction_service.go:116-123 | a line never asks for more than the lines together ask of its ticket type |
| Transactions.ReserveLinesSpec | service/transaction_service.go:116-123 | every reservation takes exactly when each requested ticket type is live with enough left for the total of its lines; the table is then every remaining quota lowered by its total demand |
| Transactions.ReserveLinesSticks | service/transaction_service.go:118-122 | after a failed reservation the later lines are not reserved |
| Transactions.ReserveLinesKeepsRange | service/transaction_service.go:116-123 | reserving non-negative quantities keeps `0 <= remaining_quota <= quota` for every ticket type, whether every reservation takes or the loop stops early |
| Transactions.ReserveLinesKeepsKeys | repository/ticket_type_repository.go:99-101 | reservations change no row's id or deletion state, so ids stay unique |
| Transactions.ReserveLinesFailure | repository/ticket_type_repository.go:116-118 | a reservation loop can fail only with "insufficient ticket quota" |
| Transactions.TotalLinked | service/transaction_service.go:116-117 | attaching the details to the transaction does not change their total |
| Transactions.CreateOutcome | service/transaction_service.go:63-133 | the whole workflow as a function of the three tables: existing transactions are never changed and at most one is added; a failure writes no detail; a success appends exactly the returned transaction and its details |
| Transactions.CreateValidationFails | service/transaction_service.go:68-76 | a request with a missing, deleted or individually short line fails and writes nothing to any table |
| Transactions.CreateSucceeds | service/transaction_service.go:63-133 | creation succeeds exactly when every requested ticket type is live with enough left for all its lines together. Then: the transaction is pending in both statuses, with the request's user, event, method and URL and the sum of subtotals as total; each detail is its line at the validated price, belonging to the transaction; remaining quotas drop by the demand; transaction and details are appended |
| Transactions.CreateReservationFails | service/transaction_service.go:110-123 | when validation passes but a reservation fails: "insufficient ticket quota", the transaction row stays, the earlier reservations stay, and no detail is written |
| Transactions.DuplicateLinesPartial | service/transaction_service.go:68-123 | two lines for one ticket type, each within its remaining quota but over it together, pass validation. Creation then fails, the pending transaction row stays, and the quota keeps the first line's deduction |
| TransactionDetailRepository.AppendAllFresh | repository/transaction_detail_repository.go:58-73 | inserting a batch of distinct fresh rows keeps the primary-key invariant |
| Transactions.TransactionService.PriceDetails | service/transaction_service.go:65-92 | the validate-and-price loop computes the validation result and the total of its subtotals, reading the table only |
| Transactions.TransactionService.ReserveDetails | service/transaction_service.go:116-123 | the reservation loop leaves the table and outcome of reserving the lines in order; on success the details are attached to the transaction; on failure it says how many lines were reserved |
| Transactions.TransactionService.ReleaseReserved | service/transaction_service.go:120 | returning the reserved lines' quantities, latest first, restores the ticket-type table |
| TransactionDetailRepository.BulkCreate | repository/transaction_detail_repository.go:58-73 | appends the detail rows and keeps ids unique |
| Transactions.TransactionService.CreateTransaction | service/transaction_service.go:63-133 | its result and the three tables it leaves are those of `CreateOutcome`, whose properties are the lemmas above; the range invariant of every ticket type is preserved |
| Transactions.TransactionService.CreateTransactionCompensated | service/transaction_service.go:63-133 | same result as CreateTransaction and same tables on success. On failure, quotas and details are unchanged and the transaction is not found; after validation passed, its row is kept only as a deleted row. The range invariant is preserved |
| Transactions.TransactionService.UpdateTransactionStatus | service/transaction_service.go:135-153 | "not found" for a missing or deleted transaction, then "invalid status" outside {pending, confirmed, cancelled, completed}, both writing nothing; otherwise (and only then) exactly that status is written to that row |
| Transactions.TransactionService.UpdatePaymentStatus | service/transaction_service.go:155-173 | "not found", then "invalid payment status" outside {pending, paid, failed, refunded}, both writing nothing; otherwise exactly that payment status is written |
| UserRepository.FindByEmail | repository/user_repository.go:21-33 | finds a user exactly when a live user has the email, and then returns such a user |
| UserRepository.FindByPhone | repository/user_repository.go:35-47 | finds a user exactly when a live user has the phone number, and then returns such a user |
| UserRepository.Create | repository/user_repository.go:49-69 | appends a live row with the user's id, times, name, email and phone and the placeholder password "-" |
| UserRepository.Update | repository/user_repository.go:71-90 | rewrites name, email, phone, password and `updated_at` of the matching live row |
| UserRepository.UpdateFetchedIsNoop | repository/user_repository.go:71-90 | writing back a fetched user, whatever its deletion time, changes no row |
| Users.UserService.CreateUser | service/user_service.go:42-72 | "email already registered" exactly when a live user has the email. Else "phone number already registered" exactly when a live user has the phone. Otherwise the user is stored with the requested name, email and phone. Failures write nothing, and email/phone uniqueness is preserved |
| Users.UserService.UpdateUser | service/user_service.go:74-108 | "not found" for a missing or deleted user. A new email held by a live user is refused, then a new phone held by one; an empty field or the user's own value is not checked. Failures write nothing; on success empty fields keep their values and only that row changes. Uniqueness is preserved |
| Users.UserService.DeleteUser | service/user_service.go:110-118 | "not found" exactly for a missing or deleted user; otherwise success, but the table is unchanged and the user is still found |
| Users.UserService.DeleteUserSoft | service/user_service.go:110-118 | as intended: the same check, then the user is soft-deleted and no longer found |
| Users.UpdateKeepsContactsUnique | service/user_service.go:80-98 | an update whose new email and phone are held by no live user keeps emails and phones unique among live users |

## Left out

- HTTP layer, wiring and connection setup: routing, body parsing, JSON envelopes, environment configuration and the connection pool are not part of this model.
- Concurrency: each SQL statement is one atomic step of a sequential store. The atomicity of the conditional decrement comes from PostgreSQL, and interleavings and isolation levels are not modelled.
- Floating point: prices, subtotals and totals are integer minor units, so rounding is not modelled.
- Storage errors: connection, constraint and scan errors from the database are not modelled. Every statement succeeds unless the source itself inspects its outcome, as it does for the affected-row count of the quota decrement.
- The generic `Create`/`Update` statements (repository/base_repository.go:45-60) build SQL that cannot run as written. The callers that reach them (the ticket-type service) are modelled as "persist this record": `Repository.Create` and `Repository.Update`.
- Integer width: money, quotas and quantities are unbounded `int`, while Go's `int` and the SQL integer columns are bounded. Overflow in the resize arithmetic (service/ticket_type_service.go:98-100) or in `remaining_quota - $1` (repository/ticket_type_repository.go:100) is not captured; nothing in the core relies on wrap-around.
- Joins and row scanning: the column lists of `rows.Scan` are not modelled, nor are the `Event`/`User` objects that FindByEventId, FindAvailable and FindByUserId attach to each row. FindWithDetails takes the joined rows as its input; the LEFT JOIN itself and its NULL columns for a transaction without details are not modelled.
- FindByEmail/FindByPhone: the database may return any matching row. The model returns the first in table order, and the service only asks whether one exists.
- repository/transaction_detail_repository.go: only `BulkCreate` is modelled, as a batch append. `FindByTransactionId` is not part of this model. sqlx refuses an empty batch, which the request's `min=1` tag excludes.
- Transactions.TransactionService.CreateTransaction: requires at least one line and every quantity at least 1, as the request's validation tags say; no validator call appears in the code. A zero quantity passes validation and reserves nothing; a negative one passes validation and raises the remaining quota.
- Transactions.TransactionService.CreateTransactionCompensated: on failure, the transaction row is soft-deleted rather than removed, so it stays in the table as a hidden row.
- Other validation tags (`required`, `email`, numeric bounds on ticket types) are not enforced in the code in view and are not modelled. TicketTypes.TicketTypeService.CreateTicketType therefore accepts a negative quota, and its contract says the range invariant holds exactly when the quota is non-negative.
- The pass-through service reads (GetAll*, Get*ById, GetTicketTypesByEventId, GetAvailableTicketTypes, GetTransactionsByUserId) only delegate to the repository functions modelled above.
- The location, schedule and event services and repositories are not part of this model.
- DeleteTicketType's deletion time is Go's zero time (`ZeroTime`); only "deleted" matters to lookups.
- `ReleaseQuota`/`Released` have no counterpart in the source; only the compensated purchase uses them.

## Findings

| source | as written | input that shows it | evidently intended | confidence | as-written member | corrected member |
|---|---|---|---|---|---|---|
| repository/transaction_repository.go:83-106 | only the first joined row is scanned; for every later row a zero-valued detail is appended | a transaction with two details: the second detail comes back with zero id, quantity and price | one scanned detail per joined row | not executed; high, from reading the loop | TransactionRepository.FindWithDetails | TransactionRepository.FindWithDetailsScanned |
| service/transaction_service.go:74-123 | each line is checked against the stored remaining quota on its own, and a failed reservation is not undone | remaining 3, lines (t, 2) and (t, 2): validation passes, the second reservation fails, the pending transaction stays and remaining is 1 | a failed purchase leaves quotas and visible rows as they were | not executed; high for the partial state, given the TODO at :120 | Transactions.DuplicateLinesPartial | Transactions.TransactionService.CreateTransactionCompensated |
| service/user_service.go:116-117 | DeleteUser sets DeletedAt, then calls an update (repository/user_repository.go:73-79) whose SET list has no `deleted_at` | any live user: DeleteUser returns success and FindById still returns the user | the user is soft-deleted and hidden | not executed; high | Users.UserService.DeleteUser | Users.UserService.DeleteUserSoft |
