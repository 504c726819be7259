/**
 * The transaction table's own statements (repository/transaction_repository.go): the per-user
 * listing, the folding of the transaction/detail join, the two single-column status updates, the
 * insert and the column-listed update.
 */
module TransactionRepository {
  import opened Common
  import opened Models
  import opened BaseRepository

  // ---------------------------------------------------------------- FindByUserId

  ghost predicate NewestFirst(s: seq<Row<Transaction>>) {
    forall i, j :: 0 <= i < j < |s| ==> s[i].createdAt >= s[j].createdAt
  }

  /** Places x in a newest-first sequence ahead of the first row no newer than it. */
  function InsertNewestFirst(x: Row<Transaction>, s: seq<Row<Transaction>>): (r: seq<Row<Transaction>>)
    requires NewestFirst(s)
    ensures |r| == |s| + 1
    ensures r[0] == x || (s != [] && r[0] == s[0])
    ensures NewestFirst(r)
    ensures multiset(r) == multiset(s) + multiset{x}
  {
    if s == [] || s[0].createdAt <= x.createdAt then [x] + s
    else
      var rest := InsertNewestFirst(x, s[1..]);
      assert s == [s[0]] + s[1..];
      assert rest[0].createdAt <= s[0].createdAt;
      [s[0]] + rest
  }

  /** `ORDER BY created_at DESC`; rows created at the same time may come in any order. */
  function OrderNewestFirst(s: seq<Row<Transaction>>): (r: seq<Row<Transaction>>)
    ensures NewestFirst(r)
    ensures multiset(r) == multiset(s)
  {
    if s == [] then []
    else
      assert s == [s[0]] + s[1..];
      InsertNewestFirst(s[0], OrderNewestFirst(s[1..]))
  }

  /** Sequences with equal multisets hold the same elements. */
  lemma SameElements(a: seq<Row<Transaction>>, b: seq<Row<Transaction>>)
    requires multiset(a) == multiset(b)
    ensures forall i :: 0 <= i < |a| ==> a[i] in b
  {
    forall i | 0 <= i < |a| ensures a[i] in b {
      assert a[i] in multiset(a);
    }
  }

  /** FindByUserId: the live transactions of the user, newest first. */
  function FindByUserId(rows: seq<Row<Transaction>>, userId: Id): (r: seq<Row<Transaction>>)
    ensures NewestFirst(r)
    ensures forall i :: 0 <= i < |r| ==> r[i] in rows && Live(r[i]) && r[i].data.userId == userId
    ensures forall i :: 0 <= i < |rows| && Live(rows[i]) && rows[i].data.userId == userId ==> rows[i] in r
    ensures multiset(r) <= multiset(rows)
  {
    var mine := Select(rows, (t: Row<Transaction>) => Live(t) && t.data.userId == userId);
    var r := OrderNewestFirst(mine);
    SameElements(r, mine);
    SameElements(mine, r);
    r
  }

  // ---------------------------------------------------------------- FindWithDetails

  /** One row of the join of a transaction with its user, its details and their ticket types. */
  datatype JoinedRow = JoinedRow(
    transaction: Row<Transaction>,
    user: Row<User>,
    detail: Row<TransactionDetail>,
    ticketType: Row<TicketType>)

  /** A detail with the ticket type the join attached to it. */
  datatype DetailView = DetailView(detail: Row<TransactionDetail>, ticketType: Row<TicketType>)

  /** A transaction header with its user and its details, as FindWithDetails returns it. */
  datatype TransactionView = TransactionView(header: Row<Transaction>, user: Row<User>, details: seq<DetailView>)

  /** What a detail looks like when its row was never scanned: Go's zero values throughout. */
  const UnscannedDetail: DetailView := DetailView(ZeroRow(ZeroDetail), ZeroRow(ZeroTicketType))

  /**
   * FindWithDetails, folding the joined rows as written: the first row is scanned into the
   * header, the user and the first detail; for every later row nothing is scanned, so the
   * detail appended is an unscanned zero value. No row gives no transaction (nil, no error).
   */
  method FindWithDetails(joined: seq<JoinedRow>) returns (r: Option<TransactionView>)
    ensures r.None? <==> joined == []
    ensures r.Some? ==>
      && r.value.header == joined[0].transaction
      && r.value.user == joined[0].user
      && |r.value.details| == |joined|
      && r.value.details[0] == DetailView(joined[0].detail, joined[0].ticketType)
      && forall k :: 1 <= k < |joined| ==> r.value.details[k] == UnscannedDetail
  {
    var transaction: Option<Row<Transaction>> := None;
    var user := ZeroRow(ZeroUser);
    var details: seq<DetailView> := [];
    var i := 0;
    while i < |joined|
      invariant 0 <= i <= |joined|
      invariant |details| == i
      invariant transaction.None? <==> i == 0
      invariant i > 0 ==> transaction == Some(joined[0].transaction) && user == joined[0].user
      invariant i > 0 ==> details[0] == DetailView(joined[0].detail, joined[0].ticketType)
      invariant forall k :: 1 <= k < i ==> details[k] == UnscannedDetail
    {
      var detail := ZeroRow(ZeroDetail);
      var ticketType := ZeroRow(ZeroTicketType);
      if transaction.None? {
        transaction := Some(joined[i].transaction);
        user := joined[i].user;
        detail := joined[i].detail;
        ticketType := joined[i].ticketType;
      }
      details := details + [DetailView(detail, ticketType)];
      i := i + 1;
    }
    if transaction.Some? {
      r := Some(TransactionView(transaction.value, user, details));
    } else {
      r := None;
    }
  }

  /** FindWithDetails as intended: every joined row is scanned, one detail per row, in row order. */
  method FindWithDetailsScanned(joined: seq<JoinedRow>) returns (r: Option<TransactionView>)
    ensures r.None? <==> joined == []
    ensures r.Some? ==>
      && r.value.header == joined[0].transaction
      && r.value.user == joined[0].user
      && |r.value.details| == |joined|
      && forall k :: 0 <= k < |joined| ==> r.value.details[k] == DetailView(joined[k].detail, joined[k].ticketType)
  {
    var transaction: Option<Row<Transaction>> := None;
    var user := ZeroRow(ZeroUser);
    var details: seq<DetailView> := [];
    var i := 0;
    while i < |joined|
      invariant 0 <= i <= |joined|
      invariant |details| == i
      invariant transaction.None? <==> i == 0
      invariant i > 0 ==> transaction == Some(joined[0].transaction) && user == joined[0].user
      invariant forall k :: 0 <= k < i ==> details[k] == DetailView(joined[k].detail, joined[k].ticketType)
    {
      if transaction.None? {
        transaction := Some(joined[i].transaction);
        user := joined[i].user;
      }
      details := details + [DetailView(joined[i].detail, joined[i].ticketType)];
      i := i + 1;
    }
    if transaction.Some? {
      r := Some(TransactionView(transaction.value, user, details));
    } else {
      r := None;
    }
  }

  // ---------------------------------------------------------------- writes

  /** The SET list of UpdateStatus: only `status` (updated_at is stamped by UpdateLive). */
  function SetStatus(status: string): Transaction -> Transaction {
    (t: Transaction) => t.(status := status)
  }

  /** The SET list of UpdatePaymentStatus: only `payment_status`. */
  function SetPaymentStatus(status: string): Transaction -> Transaction {
    (t: Transaction) => t.(paymentStatus := status)
  }

  /** The SET list of Update: total, status and the payment columns, taken from `from`. */
  function SetUpdatable(from: Transaction): Transaction -> Transaction {
    (t: Transaction) => t.(
      totalAmount := from.totalAmount,
      status := from.status,
      paymentMethod := from.paymentMethod,
      paymentStatus := from.paymentStatus,
      paymentUrl := from.paymentUrl,
      paymentCallback := from.paymentCallback)
  }

  /**
   * UpdateStatus: sets `status` and `updated_at` of the matching live row. The affected-row count
   * is never read, so a missing or deleted id is a silent no-op.
   */
  method UpdateStatus(repo: Repository<Transaction>, id: Id, status: string, now: Time)
    requires repo.Valid()
    modifies repo
    ensures repo.Valid()
    ensures repo.rows == UpdateLive(old(repo.rows), id, now, SetStatus(status))
    ensures FindById(old(repo.rows), id).Err? ==> repo.rows == old(repo.rows)
    ensures FindById(old(repo.rows), id).Ok? ==>
      var x := FindById(old(repo.rows), id).value;
      && FindById(repo.rows, id) == Ok(x.(updatedAt := now, data := x.data.(status := status)))
      && forall i :: 0 <= i < |old(repo.rows)| && old(repo.rows)[i].id != id ==> repo.rows[i] == old(repo.rows)[i]
  {
    ghost var before := repo.rows;
    if FindById(before, id).Err? {
      UpdateLiveMissing(before, id, now, SetStatus(status));
    } else {
      UpdateLiveFound(before, id, now, SetStatus(status));
    }
    repo.rows := UpdateLive(repo.rows, id, now, SetStatus(status));
  }

  /** UpdatePaymentStatus: sets `payment_status` and `updated_at` of the matching live row; silent no-op otherwise. */
  method UpdatePaymentStatus(repo: Repository<Transaction>, id: Id, status: string, now: Time)
    requires repo.Valid()
    modifies repo
    ensures repo.Valid()
    ensures repo.rows == UpdateLive(old(repo.rows), id, now, SetPaymentStatus(status))
    ensures FindById(old(repo.rows), id).Err? ==> repo.rows == old(repo.rows)
    ensures FindById(old(repo.rows), id).Ok? ==>
      var x := FindById(old(repo.rows), id).value;
      && FindById(repo.rows, id) == Ok(x.(updatedAt := now, data := x.data.(paymentStatus := status)))
      && forall i :: 0 <= i < |old(repo.rows)| && old(repo.rows)[i].id != id ==> repo.rows[i] == old(repo.rows)[i]
  {
    ghost var before := repo.rows;
    if FindById(before, id).Err? {
      UpdateLiveMissing(before, id, now, SetPaymentStatus(status));
    } else {
      UpdateLiveFound(before, id, now, SetPaymentStatus(status));
    }
    repo.rows := UpdateLive(repo.rows, id, now, SetPaymentStatus(status));
  }

  /**
   * Create: inserts a row holding exactly the transaction's values. `deleted_at` is not among the
   * inserted columns, so the new row is live whatever the struct says.
   */
  method Create(repo: Repository<Transaction>, transaction: Row<Transaction>)
    requires repo.Valid() && transaction.id !in Ids(repo.rows)
    modifies repo
    ensures repo.Valid()
    ensures repo.rows == old(repo.rows) + [transaction.(deletedAt := None)]
    ensures FindById(repo.rows, transaction.id) == Ok(transaction.(deletedAt := None))
  {
    var inserted := transaction.(deletedAt := None);
    AppendFresh(repo.rows, inserted);
    repo.rows := repo.rows + [inserted];
    FindByIdAt(repo.rows, |repo.rows| - 1);
  }

  /**
   * Update: rewrites total, status, the payment columns and updated_at of the matching live row;
   * its user, event, creation time and deletion state are not in the SET list.
   */
  method Update(repo: Repository<Transaction>, transaction: Row<Transaction>)
    requires repo.Valid()
    modifies repo
    ensures repo.Valid()
    ensures repo.rows == UpdateLive(old(repo.rows), transaction.id, transaction.updatedAt, SetUpdatable(transaction.data))
  {
    if FindById(repo.rows, transaction.id).Err? {
      UpdateLiveMissing(repo.rows, transaction.id, transaction.updatedAt, SetUpdatable(transaction.data));
    } else {
      UpdateLiveFound(repo.rows, transaction.id, transaction.updatedAt, SetUpdatable(transaction.data));
    }
    repo.rows := UpdateLive(repo.rows, transaction.id, transaction.updatedAt, SetUpdatable(transaction.data));
  }

  /** Update never moves a transaction to another user or event and never changes its id, creation time or deletion state. */
  lemma UpdateKeepsOwnership(rows: seq<Row<Transaction>>, transaction: Row<Transaction>)
    ensures var r := UpdateLive(rows, transaction.id, transaction.updatedAt, SetUpdatable(transaction.data));
      && |r| == |rows|
      && forall i :: 0 <= i < |rows| ==>
        && r[i].id == rows[i].id
        && r[i].data.userId == rows[i].data.userId
        && r[i].data.eventId == rows[i].data.eventId
        && r[i].createdAt == rows[i].createdAt
        && r[i].deletedAt == rows[i].deletedAt
  {
  }

  /** Update of a deleted or missing transaction changes nothing. */
  lemma UpdateSkipsDeleted(rows: seq<Row<Transaction>>, transaction: Row<Transaction>)
    requires FindById(rows, transaction.id).Err?
    ensures UpdateLive(rows, transaction.id, transaction.updatedAt, SetUpdatable(transaction.data)) == rows
  {
    UpdateLiveMissing(rows, transaction.id, transaction.updatedAt, SetUpdatable(transaction.data));
  }
}
