/**
 * The purchase workflow and the status manager (service/transaction_service.go).
 *
 * CreateTransaction runs in two phases. A validate-and-price pass reads the ticket-type table
 * and writes nothing; it is specified by `Priced`. Then the transaction row is inserted, every
 * line reserves its quantity with the conditional decrement, specified by `ReserveLines`, and
 * the details are inserted in one batch. `CreateOutcome` is the whole workflow as a function
 * of the three tables; the lemmas below say what it promises.
 */
module Transactions {
  import opened Common
  import opened Models
  import opened BaseRepository
  import opened TicketTypeRepository
  import TransactionRepository
  import TransactionDetailRepository

  datatype LineRequest = LineRequest(ticketTypeId: Id, quantity: int)

  datatype CreateTransactionRequest = CreateTransactionRequest(
    userId: Id,
    eventId: Id,
    paymentMethod: string,
    paymentUrl: string,
    details: seq<LineRequest>)

  /** What the request's validation tags demand: at least one line, each of quantity at least 1. */
  predicate Validated(req: CreateTransactionRequest) {
    |req.details| >= 1 && forall k :: 0 <= k < |req.details| ==> req.details[k].quantity >= 1
  }

  /** The three tables the workflow reads and writes. */
  datatype Store = Store(
    ticketTypes: seq<Row<TicketType>>,
    transactions: seq<Row<Transaction>>,
    details: seq<Row<TransactionDetail>>)

  /** A created transaction with the details attached to it. */
  datatype Created = Created(transaction: Row<Transaction>, details: seq<Row<TransactionDetail>>)

  /** What CreateTransaction returns and the tables it leaves behind. */
  datatype CreateResult = CreateResult(result: Result<Created>, store: Store)

  // ---------------------------------------------------------------- validate and price

  /** The check of one line against the stored table: the ticket type is live and has the quantity left. */
  predicate LineAvailable(tt: seq<Row<TicketType>>, line: LineRequest) {
    FindById(tt, line.ticketTypeId).Ok? && FindById(tt, line.ticketTypeId).value.data.remainingQuota >= line.quantity
  }

  /**
   * One line priced: a detail with a fresh id, not yet attached to a transaction, at the ticket
   * type's current price; or the error that stops the pass.
   */
  function PriceLine(tt: seq<Row<TicketType>>, line: LineRequest, id: Id, now: Time): (r: Result<Row<TransactionDetail>>)
    ensures r.Ok? <==> LineAvailable(tt, line)
    ensures r.Err? ==> r.error == (if FindById(tt, line.ticketTypeId).Err? then NotFound else InsufficientQuota)
    ensures r.Ok? ==>
      var price := FindById(tt, line.ticketTypeId).value.data.price;
      && r.value.id == id && r.value.createdAt == now && r.value.updatedAt == now && Live(r.value)
      && r.value.data.transactionId == NilId
      && r.value.data.ticketTypeId == line.ticketTypeId
      && r.value.data.quantity == line.quantity
      && r.value.data.pricePerTicket == price
      && r.value.data.subtotal == price * line.quantity
  {
    var found := FindById(tt, line.ticketTypeId);
    if found.Err? then Err(found.error)
    else if found.value.data.remainingQuota < line.quantity then Err(InsufficientQuota)
    else
      var price := found.value.data.price;
      Ok(Row(id, now, now, None, TransactionDetail(NilId, line.ticketTypeId, line.quantity, price, price * line.quantity)))
  }

  /** The validate-and-price pass over the lines in order, stopping at the first line that fails. */
  function Priced(tt: seq<Row<TicketType>>, lines: seq<LineRequest>, ids: seq<Id>, now: Time): Result<seq<Row<TransactionDetail>>>
    requires |ids| == |lines|
    decreases |lines|
  {
    if lines == [] then Ok([])
    else
      var n := |lines| - 1;
      var prefix := Priced(tt, lines[..n], ids[..n], now);
      if prefix.Err? then prefix
      else
        var line := PriceLine(tt, lines[n], ids[n], now);
        if line.Err? then Err(line.error) else Ok(prefix.value + [line.value])
  }

  /** The sum of the details' subtotals. */
  function Total(ds: seq<Row<TransactionDetail>>): Money
    decreases |ds|
  {
    if ds == [] then 0 else Total(ds[..|ds| - 1]) + ds[|ds| - 1].data.subtotal
  }

  /**
   * Validation succeeds exactly when every line is available on its own, and then yields one
   * detail per line, in order, each the line priced at its ticket type's current price.
   */
  lemma {:induction false} PricedShape(tt: seq<Row<TicketType>>, lines: seq<LineRequest>, ids: seq<Id>, now: Time)
    requires |ids| == |lines|
    ensures Priced(tt, lines, ids, now).Ok? <==> forall k :: 0 <= k < |lines| ==> LineAvailable(tt, lines[k])
    ensures Priced(tt, lines, ids, now).Ok? ==>
      var ds := Priced(tt, lines, ids, now).value;
      && |ds| == |lines|
      && forall k :: 0 <= k < |lines| ==> ds[k] == PriceLine(tt, lines[k], ids[k], now).value
    decreases |lines|
  {
    if lines != [] {
      var n := |lines| - 1;
      assert forall k :: 0 <= k < n ==> lines[..n][k] == lines[k] && ids[..n][k] == ids[k];
      PricedShape(tt, lines[..n], ids[..n], now);
    }
  }

  /** The details validation yields carry the given ids and each line's ticket type and quantity. */
  lemma PricedKeys(tt: seq<Row<TicketType>>, lines: seq<LineRequest>, ids: seq<Id>, now: Time)
    requires |ids| == |lines|
    ensures Priced(tt, lines, ids, now).Ok? ==>
      var ds := Priced(tt, lines, ids, now).value;
      && |ds| == |lines|
      && forall k :: 0 <= k < |lines| ==>
        ds[k].id == ids[k] && ds[k].data.ticketTypeId == lines[k].ticketTypeId && ds[k].data.quantity == lines[k].quantity
  {
    PricedShape(tt, lines, ids, now);
  }

  /** Once a prefix of the lines fails validation, the whole pass fails with the same error. */
  lemma {:induction false} PricedSticks(tt: seq<Row<TicketType>>, lines: seq<LineRequest>, ids: seq<Id>, now: Time, m: nat)
    requires |ids| == |lines| && m <= |lines|
    requires Priced(tt, lines[..m], ids[..m], now).Err?
    ensures Priced(tt, lines, ids, now) == Priced(tt, lines[..m], ids[..m], now)
    decreases |lines|
  {
    if m < |lines| {
      var n := |lines| - 1;
      assert lines[..n][..m] == lines[..m] && ids[..n][..m] == ids[..m];
      PricedSticks(tt, lines[..n], ids[..n], now, m);
    } else {
      assert lines[..m] == lines && ids[..m] == ids;
    }
  }

  /**
   * The error reported is that of the first unavailable line: "not found" for a missing or
   * deleted ticket type, "insufficient ticket quota" for a live one with too little left.
   */
  lemma PricedFirstError(tt: seq<Row<TicketType>>, lines: seq<LineRequest>, ids: seq<Id>, now: Time, k: nat)
    requires |ids| == |lines| && k < |lines|
    requires forall j :: 0 <= j < k ==> LineAvailable(tt, lines[j])
    requires !LineAvailable(tt, lines[k])
    ensures Priced(tt, lines, ids, now) == Err(if FindById(tt, lines[k].ticketTypeId).Err? then NotFound else InsufficientQuota)
  {
    assert forall j :: 0 <= j < k ==> lines[..k][j] == lines[j];
    PricedShape(tt, lines[..k], ids[..k], now);
    assert lines[..k + 1][..k] == lines[..k] && ids[..k + 1][..k] == ids[..k];
    PricedSticks(tt, lines, ids, now, k + 1);
  }

  // ---------------------------------------------------------------- reservation

  /** The ticket-type table after reserving a prefix of the lines, and whether every reservation took. */
  datatype Reserving = Reserving(table: seq<Row<TicketType>>, outcome: Outcome)

  /**
   * The reservation loop: each line's conditional decrement runs against the table the earlier
   * lines left, and the loop stops at the first one that affects no row, keeping what the earlier
   * lines reserved.
   */
  function ReserveLines(tt: seq<Row<TicketType>>, lines: seq<LineRequest>): Reserving
    decreases |lines|
  {
    if lines == [] then Reserving(tt, Pass)
    else
      var n := |lines| - 1;
      var prefix := ReserveLines(tt, lines[..n]);
      if prefix.outcome.Fail? then prefix
      else match Reserved(prefix.table, lines[n].ticketTypeId, lines[n].quantity)
        case None => Reserving(prefix.table, Fail(InsufficientQuota))
        case Some(next) => Reserving(next, Pass)
  }

  /** The total quantity the lines ask of one ticket type. */
  function Demand(lines: seq<LineRequest>, id: Id): int
    decreases |lines|
  {
    if lines == [] then 0
    else Demand(lines[..|lines| - 1], id) + (if lines[|lines| - 1].ticketTypeId == id then lines[|lines| - 1].quantity else 0)
  }

  /** The ticket type is live and has enough left for everything the lines ask of it together. */
  predicate Covered(tt: seq<Row<TicketType>>, lines: seq<LineRequest>, id: Id) {
    FindById(tt, id).Ok? && FindById(tt, id).value.data.remainingQuota >= Demand(lines, id)
  }

  /** The reference table: every ticket type's remaining quota lowered by the lines' total demand on it. */
  function Debited(tt: seq<Row<TicketType>>, lines: seq<LineRequest>): seq<Row<TicketType>> {
    seq(|tt|, i requires 0 <= i < |tt| => WithRemaining(tt[i], tt[i].data.remainingQuota - Demand(lines, tt[i].id)))
  }

  lemma {:induction false} DemandNonNegative(lines: seq<LineRequest>, id: Id)
    requires forall k :: 0 <= k < |lines| ==> lines[k].quantity >= 0
    ensures Demand(lines, id) >= 0
    decreases |lines|
  {
    if lines != [] {
      var n := |lines| - 1;
      assert forall k :: 0 <= k < n ==> lines[..n][k] == lines[k];
      DemandNonNegative(lines[..n], id);
    }
  }

  /** A line never asks more than the lines ask together of its ticket type. */
  lemma {:induction false} DemandCoversLine(lines: seq<LineRequest>, k: nat)
    requires forall j :: 0 <= j < |lines| ==> lines[j].quantity >= 0
    requires k < |lines|
    ensures lines[k].quantity <= Demand(lines, lines[k].ticketTypeId)
    decreases |lines|
  {
    var n := |lines| - 1;
    assert forall j :: 0 <= j < n ==> lines[..n][j] == lines[j];
    if k < n {
      DemandCoversLine(lines[..n], k);
    } else {
      DemandNonNegative(lines[..n], lines[k].ticketTypeId);
    }
  }

  /** Debiting changes remaining quotas only: every row keeps its id and deletion state. */
  lemma DebitedKeys(tt: seq<Row<TicketType>>, lines: seq<LineRequest>)
    ensures |Debited(tt, lines)| == |tt|
    ensures forall i :: 0 <= i < |tt| ==>
      && Debited(tt, lines)[i].id == tt[i].id
      && Debited(tt, lines)[i].deletedAt == tt[i].deletedAt
      && Debited(tt, lines)[i] == WithRemaining(tt[i], tt[i].data.remainingQuota - Demand(lines, tt[i].id))
  {
  }

  /** Lookups in the debited table: the same rows are visible, each with its demand taken off. */
  lemma {:induction false} DebitedLookup(tt: seq<Row<TicketType>>, lines: seq<LineRequest>, id: Id)
    requires UniqueIds(tt)
    ensures UniqueIds(Debited(tt, lines))
    ensures FindById(Debited(tt, lines), id).Ok? <==> FindById(tt, id).Ok?
    ensures FindById(tt, id).Ok? ==>
      var x := FindById(tt, id).value;
      FindById(Debited(tt, lines), id) == Ok(WithRemaining(x, x.data.remainingQuota - Demand(lines, id)))
  {
    var d := Debited(tt, lines);
    DebitedKeys(tt, lines);
    var found := FindById(tt, id);
    if found.Ok? {
      var k :| 0 <= k < |tt| && tt[k] == found.value;
      SameKeysLookup(tt, d, id, k);
    } else {
      SameKeysLookup(tt, d, id, 0);
    }
  }

  /**
   * One reservation against the debited table of the earlier lines takes exactly when the ticket
   * type is covered for all the lines, and then leaves the debited table of all the lines.
   */
  lemma DebitStep(tt: seq<Row<TicketType>>, lines: seq<LineRequest>)
    requires UniqueIds(tt) && lines != []
    ensures var n := |lines| - 1;
      var d := Debited(tt, lines[..n]);
      var next := Reserved(d, lines[n].ticketTypeId, lines[n].quantity);
      && (next.Some? <==> Covered(tt, lines, lines[n].ticketTypeId))
      && (next.Some? ==> next.value == Debited(tt, lines))
  {
    var n := |lines| - 1;
    var p := lines[..n];
    var id := lines[n].ticketTypeId;
    var q := lines[n].quantity;
    var d := Debited(tt, p);
    DebitedLookup(tt, p, id);
    assert Demand(lines, id) == Demand(p, id) + q;
    if FindById(d, id).Ok? && FindById(d, id).value.data.remainingQuota >= q {
      ReserveSucceeds(d, id, q);
      DecrementDebited(tt, lines);
    } else {
      ReserveFails(d, id, q);
    }
  }

  /** Decrementing the debited table of the earlier lines by the last line gives the debited table of all the lines. */
  lemma DecrementDebited(tt: seq<Row<TicketType>>, lines: seq<LineRequest>)
    requires UniqueIds(tt) && lines != []
    requires Reserved(Debited(tt, lines[..|lines| - 1]), lines[|lines| - 1].ticketTypeId, lines[|lines| - 1].quantity).Some?
    ensures var n := |lines| - 1;
      Decremented(Debited(tt, lines[..n]), lines[n].ticketTypeId, lines[n].quantity) == Debited(tt, lines)
  {
    var n := |lines| - 1;
    var p := lines[..n];
    var id := lines[n].ticketTypeId;
    var q := lines[n].quantity;
    var d := Debited(tt, p);
    var next := Decremented(d, id, q);
    var goal := Debited(tt, lines);
    var j :| 0 <= j < |d| && Reservable(d[j], id, q);
    forall i | 0 <= i < |tt| ensures next[i] == goal[i] {
      assert Demand(lines, tt[i].id) == Demand(p, tt[i].id) + (if tt[i].id == id then q else 0);
      if tt[i].id == id {
        assert tt[j].id == id;
      }
    }
    assert next == goal;
  }

  /** Every line is covered exactly when the earlier lines are covered for themselves and the last line is covered for all. */
  lemma CoveredStep(tt: seq<Row<TicketType>>, lines: seq<LineRequest>)
    requires lines != []
    requires forall k :: 0 <= k < |lines| ==> lines[k].quantity >= 0
    ensures var n := |lines| - 1;
      var p := lines[..n];
      (forall k :: 0 <= k < |lines| ==> Covered(tt, lines, lines[k].ticketTypeId)) <==>
      (forall k :: 0 <= k < n ==> Covered(tt, p, p[k].ticketTypeId)) && Covered(tt, lines, lines[n].ticketTypeId)
  {
    var n := |lines| - 1;
    var p := lines[..n];
    var id := lines[n].ticketTypeId;
    assert forall k :: 0 <= k < n ==> p[k] == lines[k];
    assert forall x :: Demand(lines, x) == Demand(p, x) + (if x == id then lines[n].quantity else 0);
  }

  /**
   * Every reservation takes exactly when each requested ticket type is live and has enough left
   * for the lines' total demand on it; the table then is the reference table `Debited`.
   */
  lemma {:induction false} ReserveLinesSpec(tt: seq<Row<TicketType>>, lines: seq<LineRequest>)
    requires UniqueIds(tt)
    requires forall k :: 0 <= k < |lines| ==> lines[k].quantity >= 0
    ensures ReserveLines(tt, lines).outcome.Pass? <==> forall k :: 0 <= k < |lines| ==> Covered(tt, lines, lines[k].ticketTypeId)
    ensures ReserveLines(tt, lines).outcome.Pass? ==> ReserveLines(tt, lines).table == Debited(tt, lines)
    decreases |lines|
  {
    if lines == [] {
      assert Debited(tt, lines) == tt;
    } else {
      var n := |lines| - 1;
      assert forall k :: 0 <= k < n ==> lines[..n][k] == lines[k];
      ReserveLinesSpec(tt, lines[..n]);
      CoveredStep(tt, lines);
      DebitStep(tt, lines);
      if !ReserveLines(tt, lines[..n]).outcome.Pass? {
        var k :| 0 <= k < n && !Covered(tt, lines[..n], lines[k].ticketTypeId);
        DemandNonNegative([lines[n]], lines[k].ticketTypeId);
        assert Demand(lines, lines[k].ticketTypeId) >= Demand(lines[..n], lines[k].ticketTypeId);
      }
    }
  }

  /** Once a reservation fails, the later lines are never tried. */
  lemma {:induction false} ReserveLinesSticks(tt: seq<Row<TicketType>>, lines: seq<LineRequest>, m: nat)
    requires m <= |lines|
    requires ReserveLines(tt, lines[..m]).outcome.Fail?
    ensures ReserveLines(tt, lines) == ReserveLines(tt, lines[..m])
    decreases |lines|
  {
    if m < |lines| {
      var n := |lines| - 1;
      assert lines[..n][..m] == lines[..m];
      ReserveLinesSticks(tt, lines[..n], m);
    } else {
      assert lines[..m] == lines;
    }
  }

  /** Reserving non-negative quantities keeps every ticket type's quota in range, whether or not every reservation takes. */
  lemma {:induction false} ReserveLinesKeepsRange(tt: seq<Row<TicketType>>, lines: seq<LineRequest>)
    requires AllInRange(tt)
    requires forall k :: 0 <= k < |lines| ==> lines[k].quantity >= 0
    ensures AllInRange(ReserveLines(tt, lines).table)
    decreases |lines|
  {
    if lines != [] {
      var n := |lines| - 1;
      assert forall k :: 0 <= k < n ==> lines[..n][k] == lines[k];
      ReserveLinesKeepsRange(tt, lines[..n]);
      var prefix := ReserveLines(tt, lines[..n]);
      if prefix.outcome.Pass? && Reserved(prefix.table, lines[n].ticketTypeId, lines[n].quantity).Some? {
        ReserveKeepsRange(prefix.table, lines[n].ticketTypeId, lines[n].quantity);
      }
    }
  }

  /** Reservations change remaining quotas only: every row keeps its id and deletion state. */
  lemma {:induction false} ReserveLinesKeepsKeys(tt: seq<Row<TicketType>>, lines: seq<LineRequest>)
    ensures |ReserveLines(tt, lines).table| == |tt|
    ensures forall i :: 0 <= i < |tt| ==>
      && ReserveLines(tt, lines).table[i].id == tt[i].id
      && ReserveLines(tt, lines).table[i].deletedAt == tt[i].deletedAt
    ensures UniqueIds(tt) ==> UniqueIds(ReserveLines(tt, lines).table)
    decreases |lines|
  {
    if lines != [] {
      ReserveLinesKeepsKeys(tt, lines[..|lines| - 1]);
    }
  }

  // ---------------------------------------------------------------- the workflow

  /** The transaction row CreateTransaction inserts: both statuses "pending", no payment callback yet. */
  function NewTransaction(req: CreateTransactionRequest, txId: Id, total: Money, now: Time): Row<Transaction> {
    Row(txId, now, now, None, Transaction(req.userId, req.eventId, total, "pending", req.paymentMethod, "pending", req.paymentUrl, ""))
  }

  /** The detail attached to the transaction. */
  function Link(d: Row<TransactionDetail>, txId: Id): Row<TransactionDetail> {
    d.(data := d.data.(transactionId := txId))
  }

  function Linked(ds: seq<Row<TransactionDetail>>, txId: Id): seq<Row<TransactionDetail>> {
    seq(|ds|, k requires 0 <= k < |ds| => Link(ds[k], txId))
  }

  /** Attaching the details to the transaction does not change what they add up to. */
  lemma {:induction false} TotalLinked(ds: seq<Row<TransactionDetail>>, txId: Id)
    ensures Total(Linked(ds, txId)) == Total(ds)
    decreases |ds|
  {
    if ds != [] {
      var n := |ds| - 1;
      assert Linked(ds, txId)[..n] == Linked(ds[..n], txId);
      TotalLinked(ds[..n], txId);
    }
  }

  /**
   * CreateTransaction as written: validation failures write nothing; after the transaction row
   * is inserted, a failed reservation returns the error and keeps the row and the earlier
   * reservations; the details are inserted only when every reservation took.
   */
  function CreateOutcome(store: Store, req: CreateTransactionRequest, txId: Id, detailIds: seq<Id>, now: Time): (o: CreateResult)
    requires |detailIds| == |req.details|
    ensures |store.transactions| <= |o.store.transactions| <= |store.transactions| + 1
    ensures o.store.transactions[..|store.transactions|] == store.transactions
    ensures o.result.Err? ==> o.store.details == store.details
    ensures o.result.Ok? ==>
      && o.store.transactions == store.transactions + [o.result.value.transaction]
      && o.store.details == store.details + o.result.value.details
  {
    var priced := Priced(store.ticketTypes, req.details, detailIds, now);
    if priced.Err? then CreateResult(Err(priced.error), store)
    else
      var header := NewTransaction(req, txId, Total(priced.value), now);
      var reserving := ReserveLines(store.ticketTypes, req.details);
      var written := store.(ticketTypes := reserving.table, transactions := store.transactions + [header]);
      if reserving.outcome.Fail? then CreateResult(Err(reserving.outcome.error), written)
      else
        var linked := Linked(priced.value, txId);
        CreateResult(Ok(Created(header, linked)), written.(details := store.details + linked))
  }

  /** A request with an unavailable line (missing, deleted, or short on its own) fails and writes nothing. */
  lemma CreateValidationFails(store: Store, req: CreateTransactionRequest, txId: Id, detailIds: seq<Id>, now: Time)
    requires |detailIds| == |req.details|
    requires exists k :: 0 <= k < |req.details| && !LineAvailable(store.ticketTypes, req.details[k])
    ensures CreateOutcome(store, req, txId, detailIds, now).result.Err?
    ensures CreateOutcome(store, req, txId, detailIds, now).store == store
  {
    PricedShape(store.ticketTypes, req.details, detailIds, now);
  }

  /**
   * Creation succeeds exactly when every requested ticket type is live and has enough left for all
   * the lines on it together. The transaction is then pending with the request's user, event,
   * method and URL and the sum of the subtotals as its total; each detail belongs to it and is its
   * line at the price in effect at validation; every remaining quota drops by the demand on it;
   * the transaction and its details are appended.
   */
  lemma CreateSucceeds(store: Store, req: CreateTransactionRequest, txId: Id, detailIds: seq<Id>, now: Time)
    requires UniqueIds(store.ticketTypes)
    requires |detailIds| == |req.details|
    requires forall k :: 0 <= k < |req.details| ==> req.details[k].quantity >= 1
    ensures CreateOutcome(store, req, txId, detailIds, now).result.Ok? <==>
      forall k :: 0 <= k < |req.details| ==> Covered(store.ticketTypes, req.details, req.details[k].ticketTypeId)
    ensures CreateOutcome(store, req, txId, detailIds, now).result.Ok? ==>
      var o := CreateOutcome(store, req, txId, detailIds, now);
      var created := o.result.value;
      var t := created.transaction;
      && (forall k :: 0 <= k < |req.details| ==> LineAvailable(store.ticketTypes, req.details[k]))
      && t.id == txId && t.createdAt == now && t.updatedAt == now && Live(t)
      && t.data == Transaction(req.userId, req.eventId, Total(created.details), "pending", req.paymentMethod, "pending", req.paymentUrl, "")
      && |created.details| == |req.details|
      && (forall k :: 0 <= k < |req.details| ==>
            var line := req.details[k];
            var price := FindById(store.ticketTypes, line.ticketTypeId).value.data.price;
            && created.details[k].id == detailIds[k]
            && Live(created.details[k])
            && created.details[k].data == TransactionDetail(txId, line.ticketTypeId, line.quantity, price, price * line.quantity))
      && o.store == Store(Debited(store.ticketTypes, req.details), store.transactions + [t], store.details + created.details)
  {
    var tt := store.ticketTypes;
    var lines := req.details;
    ReserveLinesSpec(tt, lines);
    PricedShape(tt, lines, detailIds, now);
    if forall k :: 0 <= k < |lines| ==> Covered(tt, lines, lines[k].ticketTypeId) {
      forall k | 0 <= k < |lines| ensures LineAvailable(tt, lines[k]) {
        DemandCoversLine(lines, k);
      }
    }
    if Priced(tt, lines, detailIds, now).Ok? {
      TotalLinked(Priced(tt, lines, detailIds, now).value, txId);
    }
  }

  /**
   * No rollback: validation passes, the transaction row is inserted, a reservation fails, and
   * creation reports the error with the row left in place and the earlier reservations kept.
   */
  lemma CreateReservationFails(store: Store, req: CreateTransactionRequest, txId: Id, detailIds: seq<Id>, now: Time)
    requires |detailIds| == |req.details|
    requires Priced(store.ticketTypes, req.details, detailIds, now).Ok?
    requires ReserveLines(store.ticketTypes, req.details).outcome.Fail?
    ensures var o := CreateOutcome(store, req, txId, detailIds, now);
      && o.result == Err(InsufficientQuota)
      && o.store.ticketTypes == ReserveLines(store.ticketTypes, req.details).table
      && o.store.transactions == store.transactions + [NewTransaction(req, txId, Total(Priced(store.ticketTypes, req.details, detailIds, now).value), now)]
      && o.store.details == store.details
  {
    assert ReserveLines(store.ticketTypes, req.details).outcome == Fail(InsufficientQuota) by {
      ReserveLinesFailure(store.ticketTypes, req.details);
    }
  }

  /** The only failure a reservation reports is "insufficient ticket quota". */
  lemma {:induction false} ReserveLinesFailure(tt: seq<Row<TicketType>>, lines: seq<LineRequest>)
    ensures ReserveLines(tt, lines).outcome.Fail? ==> ReserveLines(tt, lines).outcome == Fail(InsufficientQuota)
    decreases |lines|
  {
    if lines != [] {
      ReserveLinesFailure(tt, lines[..|lines| - 1]);
    }
  }

  /**
   * Two lines for one ticket type, each within the remaining quota but together over it: both pass
   * validation, the second reservation fails, and the request fails after the pending transaction
   * row was inserted and the first line's quantity was taken off the quota.
   */
  lemma DuplicateLinesPartial(store: Store, req: CreateTransactionRequest, txId: Id, detailIds: seq<Id>, now: Time, id: Id, a: int, b: int)
    requires UniqueIds(store.ticketTypes)
    requires FindById(store.ticketTypes, id).Ok?
    requires req.details == [LineRequest(id, a), LineRequest(id, b)] && |detailIds| == 2
    requires 1 <= a <= FindById(store.ticketTypes, id).value.data.remainingQuota
    requires 1 <= b <= FindById(store.ticketTypes, id).value.data.remainingQuota < a + b
    ensures Priced(store.ticketTypes, req.details, detailIds, now).Ok?
    ensures var o := CreateOutcome(store, req, txId, detailIds, now);
      var x := FindById(store.ticketTypes, id).value;
      && o.result == Err(InsufficientQuota)
      && FindById(o.store.ticketTypes, id) == Ok(WithRemaining(x, x.data.remainingQuota - a))
      && |o.store.transactions| == |store.transactions| + 1
      && o.store.transactions[|store.transactions|].id == txId
      && o.store.transactions[|store.transactions|].data.status == "pending"
      && o.store.details == store.details
  {
    var tt := store.ticketTypes;
    var lines := req.details;
    PricedShape(tt, lines, detailIds, now);
    var priced := Priced(tt, lines, detailIds, now);
    ReserveSucceeds(tt, id, a);
    var afterFirst := Reserved(tt, id, a).value;
    assert ReserveLines(tt, lines[..1]) == Reserving(afterFirst, Pass) by {
      assert lines[..1] == [LineRequest(id, a)] && lines[..1][..0] == [];
    }
    ReserveFails(afterFirst, id, b);
    assert ReserveLines(tt, lines) == Reserving(afterFirst, Fail(InsufficientQuota)) by {
      assert lines[..1] == lines[..|lines| - 1];
    }
    var header := NewTransaction(req, txId, Total(priced.value), now);
    assert CreateOutcome(store, req, txId, detailIds, now)
      == CreateResult(Err(InsufficientQuota), store.(ticketTypes := afterFirst, transactions := store.transactions + [header]));
  }

  // ---------------------------------------------------------------- status manager

  const OrderStatuses: set<string> := {"pending", "confirmed", "cancelled", "completed"}

  const PaymentStatuses: set<string> := {"pending", "paid", "failed", "refunded"}

  // ---------------------------------------------------------------- the service

  /** Distinct ids, none of them already a row of the table. */
  ghost predicate FreshIds<T>(ids: seq<Id>, rows: seq<Row<T>>) {
    && (forall k, l :: 0 <= k < l < |ids| ==> ids[k] != ids[l])
    && (forall k, i :: 0 <= k < |ids| && 0 <= i < |rows| ==> ids[k] != rows[i].id)
  }

  class TransactionService {
    const repo: Repository<Transaction>
    const detailRepo: Repository<TransactionDetail>
    const ticketTypeRepo: Repository<TicketType>

    constructor (repo: Repository<Transaction>, detailRepo: Repository<TransactionDetail>, ticketTypeRepo: Repository<TicketType>)
      ensures this.repo == repo && this.detailRepo == detailRepo && this.ticketTypeRepo == ticketTypeRepo
    {
      this.repo := repo;
      this.detailRepo := detailRepo;
      this.ticketTypeRepo := ticketTypeRepo;
    }

    ghost predicate Valid()
      reads repo, detailRepo, ticketTypeRepo
    {
      repo.Valid() && detailRepo.Valid() && ticketTypeRepo.Valid()
    }

    function Snapshot(): Store
      reads repo, detailRepo, ticketTypeRepo
    {
      Store(ticketTypeRepo.rows, repo.rows, detailRepo.rows)
    }

    /** The validate-and-price loop: looks every line up and prices it, writing nothing. */
    method PriceDetails(lines: seq<LineRequest>, detailIds: seq<Id>, now: Time) returns (r: Result<seq<Row<TransactionDetail>>>, totalAmount: Money)
      requires |detailIds| == |lines|
      ensures r == Priced(ticketTypeRepo.rows, lines, detailIds, now)
      ensures r.Ok? ==> totalAmount == Total(r.value)
    {
      var details: seq<Row<TransactionDetail>> := [];
      totalAmount := 0;
      var i := 0;
      while i < |lines|
        invariant 0 <= i <= |lines|
        invariant Priced(ticketTypeRepo.rows, lines[..i], detailIds[..i], now) == Ok(details)
        invariant totalAmount == Total(details)
      {
        var line := lines[i];
        assert lines[..i + 1][..i] == lines[..i] && detailIds[..i + 1][..i] == detailIds[..i];
        var ticketType := FindById(ticketTypeRepo.rows, line.ticketTypeId);
        if ticketType.Err? {
          PricedSticks(ticketTypeRepo.rows, lines, detailIds, now, i + 1);
          return Err(ticketType.error), totalAmount;
        }
        if ticketType.value.data.remainingQuota < line.quantity {
          PricedSticks(ticketTypeRepo.rows, lines, detailIds, now, i + 1);
          return Err(InsufficientQuota), totalAmount;
        }
        var subTotal := ticketType.value.data.price * line.quantity;
        totalAmount := totalAmount + subTotal;
        var detail := Row(detailIds[i], now, now, None,
          TransactionDetail(NilId, line.ticketTypeId, line.quantity, ticketType.value.data.price, subTotal));
        assert (details + [detail])[..|details|] == details;
        details := details + [detail];
        i := i + 1;
      }
      assert lines[..i] == lines && detailIds[..i] == detailIds;
      r := Ok(details);
    }

    /**
     * The reservation loop: attaches each detail to the transaction and reserves its quantity
     * with the conditional decrement, stopping at the first reservation that affects no row.
     * `reserved` is the number of lines reserved before that one.
     */
    method ReserveDetails(ghost lines: seq<LineRequest>, priced: seq<Row<TransactionDetail>>, txId: Id)
      returns (details: seq<Row<TransactionDetail>>, outcome: Outcome, reserved: nat)
      requires ticketTypeRepo.Valid()
      requires |priced| == |lines|
      requires forall k :: 0 <= k < |lines| ==>
        priced[k].data.ticketTypeId == lines[k].ticketTypeId && priced[k].data.quantity == lines[k].quantity
      modifies ticketTypeRepo
      ensures ticketTypeRepo.Valid()
      ensures ReserveLines(old(ticketTypeRepo.rows), lines) == Reserving(ticketTypeRepo.rows, outcome)
      ensures outcome.Pass? ==> details == Linked(priced, txId)
      ensures outcome.Fail? ==>
        reserved < |lines| && ReserveLines(old(ticketTypeRepo.rows), lines[..reserved]) == Reserving(ticketTypeRepo.rows, Pass)
    {
      ghost var tt := ticketTypeRepo.rows;
      details := priced;
      var j := 0;
      while j < |details|
        invariant 0 <= j <= |details| == |lines|
        invariant ticketTypeRepo.Valid()
        invariant ReserveLines(tt, lines[..j]) == Reserving(ticketTypeRepo.rows, Pass)
        invariant forall k :: 0 <= k < j ==> details[k] == Link(priced[k], txId)
        invariant forall k :: j <= k < |details| ==> details[k] == priced[k]
      {
        details := details[j := Link(details[j], txId)];
        assert lines[..j + 1][..j] == lines[..j];
        outcome := TicketTypeRepository.UpdateQuota(ticketTypeRepo, details[j].data.ticketTypeId, details[j].data.quantity);
        if outcome.Fail? {
          ReserveLinesSticks(tt, lines, j + 1);
          reserved := j;
          return;
        }
        j := j + 1;
      }
      assert lines[..j] == lines;
      assert details == Linked(priced, txId);
      outcome := Pass;
      reserved := j;
    }

    /** The rollback: gives back the quantities the first `reserved` lines took, latest first. */
    method ReleaseReserved(ghost tt: seq<Row<TicketType>>, lines: seq<LineRequest>, reserved: nat)
      requires ticketTypeRepo.Valid() && UniqueIds(tt)
      requires reserved <= |lines|
      requires ReserveLines(tt, lines[..reserved]) == Reserving(ticketTypeRepo.rows, Pass)
      modifies ticketTypeRepo
      ensures ticketTypeRepo.Valid()
      ensures ticketTypeRepo.rows == tt
    {
      var k := reserved;
      while k > 0
        invariant 0 <= k <= reserved
        invariant ticketTypeRepo.Valid()
        invariant ReserveLines(tt, lines[..k]) == Reserving(ticketTypeRepo.rows, Pass)
        decreases k
      {
        k := k - 1;
        assert lines[..k + 1][..k] == lines[..k];
        ReserveLinesKeepsKeys(tt, lines[..k]);
        ReleaseUndoesReserve(ReserveLines(tt, lines[..k]).table, lines[k].ticketTypeId, lines[k].quantity);
        TicketTypeRepository.ReleaseQuota(ticketTypeRepo, lines[k].ticketTypeId, lines[k].quantity);
      }
    }

    /**
     * CreateTransaction as written. `txId` and `detailIds` stand for the uuid.New() calls and
     * `now` for time.Now().
     */
    method CreateTransaction(req: CreateTransactionRequest, txId: Id, detailIds: seq<Id>, now: Time) returns (r: Result<Created>)
      requires Valid() && Validated(req)
      requires |detailIds| == |req.details|
      requires txId !in Ids(repo.rows)
      requires FreshIds(detailIds, detailRepo.rows)
      modifies repo, detailRepo, ticketTypeRepo
      ensures Valid()
      ensures r == CreateOutcome(old(Snapshot()), req, txId, detailIds, now).result
      ensures Snapshot() == CreateOutcome(old(Snapshot()), req, txId, detailIds, now).store
      ensures AllInRange(old(ticketTypeRepo.rows)) ==> AllInRange(ticketTypeRepo.rows)
    {
      ghost var before := Snapshot();
      ghost var o := CreateOutcome(before, req, txId, detailIds, now);
      ghost var tt := ticketTypeRepo.rows;
      var lines := req.details;
      var priced, totalAmount := PriceDetails(lines, detailIds, now);
      if priced.Err? {
        assert o == CreateResult(Err(priced.error), before);
        return Err(priced.error);
      }
      PricedKeys(tt, lines, detailIds, now);
      if AllInRange(tt) {
        ReserveLinesKeepsRange(tt, lines);
      }

      var transaction := NewTransaction(req, txId, totalAmount, now);
      TransactionRepository.Create(repo, transaction);
      ghost var reserving := ReserveLines(tt, lines);
      ghost var written := before.(ticketTypes := reserving.table, transactions := before.transactions + [transaction]);

      var details, outcome, reserved := ReserveDetails(lines, priced.value, txId);
      assert Snapshot() == written;
      if outcome.Fail? {
        assert o == CreateResult(Err(outcome.error), written);
        return Err(outcome.error);
      }
      assert o == CreateResult(Ok(Created(transaction, details)), written.(details := before.details + details));

      assert forall k :: 0 <= k < |details| ==> details[k].id == detailIds[k];
      TransactionDetailRepository.BulkCreate(detailRepo, details);
      r := Ok(Created(transaction, details));
    }

    /**
     * CreateTransaction with the rollback the source leaves to do: when a reservation fails, the
     * quantities already reserved are returned, latest first, and the transaction row is deleted,
     * so a failed purchase leaves every quota and every visible row as it was.
     */
    method CreateTransactionCompensated(req: CreateTransactionRequest, txId: Id, detailIds: seq<Id>, now: Time) returns (r: Result<Created>)
      requires Valid() && Validated(req)
      requires |detailIds| == |req.details|
      requires txId !in Ids(repo.rows)
      requires FreshIds(detailIds, detailRepo.rows)
      modifies repo, detailRepo, ticketTypeRepo
      ensures Valid()
      ensures r == CreateOutcome(old(Snapshot()), req, txId, detailIds, now).result
      ensures r.Ok? ==> Snapshot() == CreateOutcome(old(Snapshot()), req, txId, detailIds, now).store
      ensures AllInRange(old(ticketTypeRepo.rows)) ==> AllInRange(ticketTypeRepo.rows)
      ensures r.Err? ==>
        && ticketTypeRepo.rows == old(ticketTypeRepo.rows)
        && detailRepo.rows == old(detailRepo.rows)
        && FindById(repo.rows, txId) == Err(NotFound)
        && (Priced(old(ticketTypeRepo.rows), req.details, detailIds, now).Err? ==> repo.rows == old(repo.rows))
        && (Priced(old(ticketTypeRepo.rows), req.details, detailIds, now).Ok? ==>
              var header := NewTransaction(req, txId, Total(Priced(old(ticketTypeRepo.rows), req.details, detailIds, now).value), now);
              repo.rows == old(repo.rows) + [header.(deletedAt := Some(now))])
    {
      ghost var before := Snapshot();
      ghost var o := CreateOutcome(before, req, txId, detailIds, now);
      ghost var tt := ticketTypeRepo.rows;
      var lines := req.details;
      var priced, totalAmount := PriceDetails(lines, detailIds, now);
      if priced.Err? {
        assert o.result == Err(priced.error);
        FindByIdMissing(repo.rows, txId);
        return Err(priced.error);
      }
      PricedKeys(tt, lines, detailIds, now);
      if AllInRange(tt) {
        ReserveLinesKeepsRange(tt, lines);
      }

      var transaction := NewTransaction(req, txId, totalAmount, now);
      TransactionRepository.Create(repo, transaction);
      ghost var reserving := ReserveLines(tt, lines);
      ghost var written := before.(ticketTypes := reserving.table, transactions := before.transactions + [transaction]);

      var details, outcome, reserved := ReserveDetails(lines, priced.value, txId);
      assert Snapshot() == written;
      if outcome.Fail? {
        assert o.result == Err(outcome.error);
        ReleaseReserved(tt, lines, reserved);
        DeleteNewest(old(repo.rows), transaction, now);
        repo.Delete(txId, now);
        return Err(outcome.error);
      }
      assert o == CreateResult(Ok(Created(transaction, details)), written.(details := before.details + details));

      assert forall k :: 0 <= k < |details| ==> details[k].id == detailIds[k];
      TransactionDetailRepository.BulkCreate(detailRepo, details);
      r := Ok(Created(transaction, details));
    }

    /**
     * UpdateTransactionStatus: a missing or deleted transaction is "not found"; a status outside
     * the four order statuses is refused; otherwise exactly that status is written.
     */
    method UpdateTransactionStatus(id: Id, status: string, now: Time) returns (r: Outcome)
      requires Valid()
      modifies repo
      ensures Valid()
      ensures r.Fail? ==> repo.rows == old(repo.rows)
      ensures FindById(old(repo.rows), id).Err? ==> r == Fail(NotFound)
      ensures FindById(old(repo.rows), id).Ok? && status !in OrderStatuses ==> r == Fail(InvalidStatus)
      ensures r == Pass <==> FindById(old(repo.rows), id).Ok? && status in OrderStatuses
      ensures r == Pass ==>
        var x := FindById(old(repo.rows), id).value;
        && repo.rows == UpdateLive(old(repo.rows), id, now, TransactionRepository.SetStatus(status))
        && FindById(repo.rows, id) == Ok(x.(updatedAt := now, data := x.data.(status := status)))
        && forall i :: 0 <= i < |old(repo.rows)| && old(repo.rows)[i].id != id ==> repo.rows[i] == old(repo.rows)[i]
    {
      var found := FindById(repo.rows, id);
      if found.Err? {
        return Fail(found.error);
      }
      if status !in OrderStatuses {
        return Fail(InvalidStatus);
      }
      TransactionRepository.UpdateStatus(repo, id, status, now);
      r := Pass;
    }

    /**
     * UpdatePaymentStatus: as UpdateTransactionStatus, over the four payment statuses and the
     * payment-status column.
     */
    method UpdatePaymentStatus(id: Id, status: string, now: Time) returns (r: Outcome)
      requires Valid()
      modifies repo
      ensures Valid()
      ensures r.Fail? ==> repo.rows == old(repo.rows)
      ensures FindById(old(repo.rows), id).Err? ==> r == Fail(NotFound)
      ensures FindById(old(repo.rows), id).Ok? && status !in PaymentStatuses ==> r == Fail(InvalidPaymentStatus)
      ensures r == Pass <==> FindById(old(repo.rows), id).Ok? && status in PaymentStatuses
      ensures r == Pass ==>
        var x := FindById(old(repo.rows), id).value;
        && repo.rows == UpdateLive(old(repo.rows), id, now, TransactionRepository.SetPaymentStatus(status))
        && FindById(repo.rows, id) == Ok(x.(updatedAt := now, data := x.data.(paymentStatus := status)))
        && forall i :: 0 <= i < |old(repo.rows)| && old(repo.rows)[i].id != id ==> repo.rows[i] == old(repo.rows)[i]
    {
      var found := FindById(repo.rows, id);
      if found.Err? {
        return Fail(found.error);
      }
      if status !in PaymentStatuses {
        return Fail(InvalidPaymentStatus);
      }
      TransactionRepository.UpdatePaymentStatus(repo, id, status, now);
      r := Pass;
    }
  }
}
