/** The account repository: single-row lookup, insert, and the full scan used
    by the cache warm-up. A Query oracle says whether a round trip to the store
    fails and with what driver error. */
module AccountRepository {
  import opened Results
  import opened Int64Text
  import opened Constants
  import opened Models
  import opened Database

  datatype Query = Served | Fails(text: string)

  /** The store's own error for an insert that repeats a primary key. */
  const DuplicateKeyText: string := "duplicate key value violates unique constraint"

  /** AccountRepository.GetAccount: a missing row is AccountNotFound; any other
      failure is wrapped and is no sentinel; a hit returns the stored row. */
  function GetAccount(db: Db, id: Int64, q: Query): (r: Result<Account, Error>)
    ensures r.Ok? <==> q.Served? && id in db.accounts
    ensures r.Ok? ==> r.value == Account(id, db.accounts[id])
    ensures q.Served? && id !in db.accounts ==> r == Err(Sentinel(AccountNotFound))
    ensures q.Fails? ==> r == Err(Wrapped("get account failed", Foreign(q.text))) && Untyped(r.error)
  {
    match q
    case Fails(t) => Err(Wrapped("get account failed", Foreign(t)))
    case Served =>
      if id in db.accounts then Ok(Account(id, db.accounts[id])) else Err(Sentinel(AccountNotFound))
  }

  /** AccountRepository.CreateAccount: the insert either adds exactly the new row
      or changes nothing and returns the store's error as is; a duplicate key is
      not translated into AccountAlreadyExists. */
  function CreateAccount(db: Db, acc: Account, q: Query): (r: (Db, Outcome<Error>))
    ensures r.1.Pass? <==> q.Served? && acc.id !in db.accounts
    ensures r.1.Pass? ==> r.0.transfers == db.transfers && r.0.accounts.Keys == db.accounts.Keys + {acc.id}
    ensures r.1.Pass? ==> r.0.accounts[acc.id] == acc.balance
    ensures r.1.Pass? ==> forall id :: id in db.accounts ==> r.0.accounts[id] == db.accounts[id]
    ensures r.1.Fail? ==> r.0 == db && r.1.error.Foreign? && Untyped(r.1.error)
    ensures q.Served? && acc.id in db.accounts ==> r.1 == Fail(Foreign(DuplicateKeyText))
  {
    match q
    case Fails(t) => (db, Fail(Foreign(t)))
    case Served =>
      if acc.id in db.accounts then (db, Fail(Foreign(DuplicateKeyText)))
      else (db.(accounts := db.accounts[acc.id := acc.balance]), Pass)
  }

  /** A served insert followed by a served lookup of the same id returns the
      account as created; a lookup of any other id answers as it did before. */
  lemma CreateThenGet(db: Db, acc: Account, other: Int64)
    requires acc.id !in db.accounts
    ensures var db' := CreateAccount(db, acc, Served).0;
      && GetAccount(db', acc.id, Served) == Ok(acc)
      && (other != acc.id ==> GetAccount(db', other, Served) == GetAccount(db, other, Served))
  {
  }

  /** One row of the full scan, as the driver delivers it. */
  datatype Scan = Row(account: Account) | ScanFails(text: string)

  /** The accounts of the rows that scanned, in row order. */
  function Scanned(rows: seq<Scan>): seq<Account>
    decreases |rows|
  {
    if rows == [] then []
    else
      Scanned(rows[..|rows| - 1]) +
      (match rows[|rows| - 1] case Row(a) => [a] case ScanFails(_) => [])
  }

  /** The scan keeps row order: scanning two runs of rows is scanning each. */
  lemma {:induction false} ScannedAppend(a: seq<Scan>, b: seq<Scan>)
    ensures Scanned(a + b) == Scanned(a) + Scanned(b)
    decreases |b|
  {
    if b == [] {
      assert a + b == a;
    } else {
      var b' := b[..|b| - 1];
      assert (a + b)[..|a + b| - 1] == a + b';
      ScannedAppend(a, b');
    }
  }

  /** An account is in the scan exactly when one of the rows delivered it. */
  lemma {:induction false} ScannedMembers(rows: seq<Scan>, acc: Account)
    ensures acc in Scanned(rows) <==> Row(acc) in rows
    decreases |rows|
  {
    if rows != [] {
      var init := rows[..|rows| - 1];
      ScannedMembers(init, acc);
      assert rows == init + [rows[|rows| - 1]];
    }
  }

  /** When every row scans, nothing is dropped and positions are kept. */
  lemma {:induction false} ScannedAllRows(rows: seq<Scan>)
    requires forall i :: 0 <= i < |rows| ==> rows[i].Row?
    ensures |Scanned(rows)| == |rows|
    ensures forall i :: 0 <= i < |rows| ==> Scanned(rows)[i] == rows[i].account
    decreases |rows|
  {
    if rows != [] {
      ScannedAllRows(rows[..|rows| - 1]);
    }
  }

  /** AccountRepository.GetAll: a failed query or a failed iteration returns the
      driver's error and nothing of what was read; otherwise the accounts of the
      rows that scanned, in row order, with the failed rows skipped. */
  method GetAll(query: Query, rows: seq<Scan>, iteration: Query) returns (r: Result<seq<Account>, Error>)
    ensures query.Fails? ==> r == Err(Foreign(query.text))
    ensures query.Served? && iteration.Fails? ==> r == Err(Foreign(iteration.text))
    ensures query.Served? && iteration.Served? ==> r == Ok(Scanned(rows))
    ensures r.Ok? ==> |r.value| <= |rows|
    ensures r.Ok? ==> forall acc :: acc in r.value ==> Row(acc) in rows
  {
    if query.Fails? {
      return Err(Foreign(query.text));
    }
    var accounts: seq<Account> := [];
    var i := 0;
    while i < |rows|
      invariant 0 <= i <= |rows|
      invariant accounts == Scanned(rows[..i])
      invariant |accounts| <= i
    {
      assert rows[..i + 1][..i] == rows[..i];
      if rows[i].Row? {
        accounts := accounts + [rows[i].account];
      }
      i := i + 1;
    }
    assert rows[..i] == rows;
    if iteration.Fails? {
      return Err(Foreign(iteration.text));
    }
    forall acc | acc in accounts
      ensures Row(acc) in rows
    {
      ScannedMembers(rows, acc);
    }
    return Ok(accounts);
  }
}
