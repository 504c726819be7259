/**
 * The transaction-detail table's own statement (repository/transaction_detail_repository.go):
 * the batch insert of a purchase's details.
 */
module TransactionDetailRepository {
  import opened Common
  import opened Models
  import opened BaseRepository

  /** Inserting a batch of fresh rows keeps the primary-key invariant. */
  lemma AppendAllFresh<T>(rows: seq<Row<T>>, batch: seq<Row<T>>)
    requires UniqueIds(rows) && UniqueIds(batch)
    requires forall k, i :: 0 <= k < |batch| && 0 <= i < |rows| ==> batch[k].id != rows[i].id
    ensures UniqueIds(rows + batch)
  {
    var r := rows + batch;
    forall i, j | 0 <= i < j < |r| ensures r[i].id != r[j].id {
      if i >= |rows| {
        assert r[i] == batch[i - |rows|] && r[j] == batch[j - |rows|];
      } else if j >= |rows| {
        assert r[j] == batch[j - |rows|];
      }
    }
  }

  /** BulkCreate: inserts every detail, in one statement, as a new row of the detail table. */
  method BulkCreate(repo: Repository<TransactionDetail>, details: seq<Row<TransactionDetail>>)
    requires repo.Valid() && UniqueIds(details)
    requires forall k, i :: 0 <= k < |details| && 0 <= i < |repo.rows| ==> details[k].id != repo.rows[i].id
    modifies repo
    ensures repo.Valid()
    ensures repo.rows == old(repo.rows) + details
  {
    AppendAllFresh(repo.rows, details);
    repo.rows := repo.rows + details;
  }
}
