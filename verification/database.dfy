/** The relational store behind both repositories: the accounts table and the
    transfers (audit) table. */
module Database {
  import opened Results
  import opened Int64Text
  import opened Constants

  /** A row of the transfers table. The post-balances stay NULL (None) until
      the row is finalized. */
  datatype AuditRow = AuditRow(
    transferId: int,
    sourceId: Int64,
    destinationId: Int64,
    amount: real,
    correlationId: Int64,
    status: TransferStatus,
    sourcePrev: real,
    destinationPrev: real,
    sourcePost: Option<real>,
    destinationPost: Option<real>,
    createdAt: int)

  /** Committed state: account_id to balance, and the transfers in insertion order. */
  datatype Db = Db(accounts: map<Int64, real>, transfers: seq<AuditRow>)

  /** transfer_id is assigned by the store in insertion order, from 1. */
  predicate Valid(db: Db) {
    forall i :: 0 <= i < |db.transfers| ==> db.transfers[i].transferId == i + 1
  }

  function NextTransferId(db: Db): int {
    |db.transfers| + 1
  }

  /** Number of rows with the given status. */
  function CountStatus(rows: seq<AuditRow>, s: TransferStatus): nat {
    if rows == [] then 0
    else CountStatus(rows[..|rows| - 1], s) + (if rows[|rows| - 1].status == s then 1 else 0)
  }
}
