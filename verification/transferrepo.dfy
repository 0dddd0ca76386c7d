/** The transfer engine: one store transaction that locks and reads both
    accounts, checks funds, records a Pending audit row, moves the money,
    completes the audit row and commits. The Step oracle says which round trip
    fails; every failure after Begin rolls the whole transaction back. */
module TransferRepository {
  import opened Results
  import opened Int64Text
  import opened Constants
  import opened Models
  import opened Database
  import opened GoContext
  import Decimal

  /** The repository's own context key. The id is read under this key only. */
  const CorrelationKey: ContextKey := ContextKey("repository.contextKey", "correlation_id")

  /** The round trips of one transfer that can fail. */
  datatype Step =
    | Begin
    | LockSource
    | LockDestination
    | InsertAudit
    | DebitSource
    | CreditDestination
    | FinalizeAudit
    | Commit

  /** The statements sent to the store, in the order sent. */
  datatype Statement =
    | BeginTx
    | SelectForUpdate(accountId: Int64)
    | InsertTransfer(row: AuditRow)
    | UpdateBalance(accountId: Int64, balance: real)
    | UpdateTransfer(transferId: int, status: TransferStatus, sourcePost: real, destinationPost: real)
    | CommitTx
    | RollbackTx

  /** The committed state after the call, what the call returned, and what it sent. */
  datatype Attempt = Attempt(db: Db, result: Result<TransferResult, Error>, statements: seq<Statement>)

  const Success: string := "SUCCESS"

  /** A failure after Begin and before Commit: the deferred rollback discards
      the transaction. */
  function Abort(db: Db, k: Kind, sent: seq<Statement>): Attempt {
    Attempt(db, Err(Sentinel(k)), sent + [RollbackTx])
  }

  /** UPDATE transfers SET status, post balances WHERE transfer_id = id. */
  function Finalize(rows: seq<AuditRow>, id: int, sourcePost: real, destinationPost: real): (r: seq<AuditRow>)
    ensures |r| == |rows|
    ensures forall i :: 0 <= i < |rows| && rows[i].transferId != id ==> r[i] == rows[i]
    ensures forall i :: 0 <= i < |rows| && rows[i].transferId == id ==>
      r[i] == rows[i].(status := Completed, sourcePost := Some(sourcePost), destinationPost := Some(destinationPost))
  {
    seq(|rows|, i requires 0 <= i < |rows| =>
      if rows[i].transferId == id
      then rows[i].(status := Completed, sourcePost := Some(sourcePost), destinationPost := Some(destinationPost))
      else rows[i])
  }

  /** The Pending row inserted for a request, with both pre-balances. */
  function PendingRow(db: Db, req: TransferRequest, correlationId: Int64, clock: int): AuditRow
    requires req.sourceId in db.accounts && req.destinationId in db.accounts
  {
    AuditRow(NextTransferId(db), req.sourceId, req.destinationId, req.amount, correlationId,
             Pending, db.accounts[req.sourceId], db.accounts[req.destinationId], None, None, clock)
  }

  /** TransferRepository.Transfer. The ids are locked in request order; the
      lower-id-first order Transfer computes is never used. Neither the sign of the
      amount nor the difference of the ids is checked here. */
  function Transfer(ctx: Context, db: Db, req: TransferRequest, faults: set<Step>, clock: int, show: real -> string): (a: Attempt)
    ensures a.result.Err? ==> a.db == db
    ensures a.result.Err? ==> a.result.error in {Sentinel(AccountNotFound), Sentinel(InsufficientFunds), Sentinel(SystemError)}
    ensures a.result.Ok? ==> req.sourceId in db.accounts && req.destinationId in db.accounts
    ensures a.result.Ok? ==> !Decimal.LessThan(db.accounts[req.sourceId], req.amount)
    ensures a.result.Ok? ==> a.result.value.auditId == NextTransferId(db)
    ensures a.result.Ok? ==> a.result.value.correlationId == Int64At(ctx, CorrelationKey)
    ensures a.result.Ok? ==> a.result.value.status == "SUCCESS" && a.result.value.createdAt == clock
    ensures a.result.Ok? ==> a.result.value.sourcePostBalance == show(db.accounts[req.sourceId] - req.amount)
    ensures a.result.Ok? ==> a.db.accounts.Keys == db.accounts.Keys && |a.db.transfers| == |db.transfers| + 1
    ensures Valid(db) ==> Valid(a.db)
  {
    var correlationId := Int64At(ctx, CorrelationKey);
    var src, dst, amount := req.sourceId, req.destinationId, req.amount;
    if Begin in faults then Attempt(db, Err(Sentinel(SystemError)), [BeginTx])
    else
      var s1 := [BeginTx, SelectForUpdate(src)];
      if LockSource in faults || src !in db.accounts then Abort(db, AccountNotFound, s1)
      else
        var s2 := s1 + [SelectForUpdate(dst)];
        if LockDestination in faults || dst !in db.accounts then Abort(db, AccountNotFound, s2)
        else
          var srcPre, dstPre := db.accounts[src], db.accounts[dst];
          if Decimal.LessThan(srcPre, amount) then Abort(db, InsufficientFunds, s2)
          else
            var pending := PendingRow(db, req, correlationId, clock);
            var id := pending.transferId;
            var s3 := s2 + [InsertTransfer(pending)];
            if InsertAudit in faults then Abort(db, SystemError, s3)
            else
              var w1 := db.(transfers := db.transfers + [pending]);
              var srcPost, dstPost := srcPre - amount, dstPre + amount;
              var s4 := s3 + [UpdateBalance(src, srcPost)];
              if DebitSource in faults then Abort(db, SystemError, s4)
              else
                var w2 := w1.(accounts := w1.accounts[src := srcPost]);
                var s5 := s4 + [UpdateBalance(dst, dstPost)];
                if CreditDestination in faults then Abort(db, SystemError, s5)
                else
                  var w3 := w2.(accounts := w2.accounts[dst := dstPost]);
                  var s6 := s5 + [UpdateTransfer(id, Completed, srcPost, dstPost)];
                  if FinalizeAudit in faults then Abort(db, SystemError, s6)
                  else
                    var w4 := w3.(transfers := Finalize(w3.transfers, id, srcPost, dstPost));
                    var s7 := s6 + [CommitTx];
                    if Commit in faults then Attempt(db, Err(Sentinel(SystemError)), s7)
                    else Attempt(w4, Ok(TransferResult(id, correlationId, Success, show(srcPost), clock)), s7)
  }

  /** The transfer commits exactly when no round trip fails, both rows exist
      and the source balance is not less than the amount. */
  lemma CommitsIff(ctx: Context, db: Db, req: TransferRequest, faults: set<Step>, clock: int, show: real -> string)
    ensures Transfer(ctx, db, req, faults, clock, show).result.Ok? <==>
      && faults == {}
      && req.sourceId in db.accounts
      && req.destinationId in db.accounts
      && !Decimal.LessThan(db.accounts[req.sourceId], req.amount)
  {
    if faults != {} {
      var s :| s in faults;
      assert Transfer(ctx, db, req, faults, clock, show).result.Err? by {
        match s
        case Begin =>
        case LockSource =>
        case LockDestination =>
        case InsertAudit =>
        case DebitSource =>
        case CreditDestination =>
        case FinalizeAudit =>
        case Commit =>
      }
    }
  }

  /** Between two different accounts a committed transfer debits the source by
      the amount, credits the destination by it, keeps their sum and touches no
      other account. */
  lemma Conservation(ctx: Context, db: Db, req: TransferRequest, clock: int, show: real -> string)
    requires req.sourceId != req.destinationId
    requires Transfer(ctx, db, req, {}, clock, show).result.Ok?
    ensures var post := Transfer(ctx, db, req, {}, clock, show).db.accounts;
      && post[req.sourceId] == db.accounts[req.sourceId] - req.amount
      && post[req.destinationId] == db.accounts[req.destinationId] + req.amount
      && post[req.sourceId] + post[req.destinationId] == db.accounts[req.sourceId] + db.accounts[req.destinationId]
      && post.Keys == db.accounts.Keys
      && forall id :: id in db.accounts && id != req.sourceId && id != req.destinationId ==> post[id] == db.accounts[id]
  {
  }

  /** A committed transfer between two different accounts never leaves the
      source negative, and only a non-negative amount leaves the destination no
      poorer. */
  lemma SourceStaysNonNegative(ctx: Context, db: Db, req: TransferRequest, faults: set<Step>, clock: int, show: real -> string)
    requires req.sourceId != req.destinationId
    requires Transfer(ctx, db, req, faults, clock, show).result.Ok?
    ensures var post := Transfer(ctx, db, req, faults, clock, show).db.accounts;
      && post[req.sourceId] >= 0.0
      && (post[req.destinationId] >= db.accounts[req.destinationId] <==> req.amount >= 0.0)
  {
  }

  /** Moving exactly the whole balance is allowed and empties the source. */
  lemma FullBalanceAccepted(ctx: Context, db: Db, req: TransferRequest, clock: int, show: real -> string)
    requires req.sourceId != req.destinationId
    requires req.sourceId in db.accounts && req.destinationId in db.accounts
    requires req.amount == db.accounts[req.sourceId]
    ensures var a := Transfer(ctx, db, req, {}, clock, show);
      a.result.Ok? && a.db.accounts[req.sourceId] == 0.0
  {
  }

  /** Insufficient funds: no audit insert, no balance write, the store unchanged. */
  lemma InsufficientFundsLeavesNoTrace(ctx: Context, db: Db, req: TransferRequest, faults: set<Step>, clock: int, show: real -> string)
    requires Begin !in faults && LockSource !in faults && LockDestination !in faults
    requires req.sourceId in db.accounts && req.destinationId in db.accounts
    requires Decimal.LessThan(db.accounts[req.sourceId], req.amount)
    ensures var a := Transfer(ctx, db, req, faults, clock, show);
      && a.result == Err(Sentinel(InsufficientFunds))
      && a.db == db
      && a.statements == [BeginTx, SelectForUpdate(req.sourceId), SelectForUpdate(req.destinationId), RollbackTx]
  {
  }

  /** A failed source read is AccountNotFound and the destination is never read. */
  lemma SourceReadFailureIsNotFound(ctx: Context, db: Db, req: TransferRequest, faults: set<Step>, clock: int, show: real -> string)
    requires Begin !in faults
    requires LockSource in faults || req.sourceId !in db.accounts
    ensures var a := Transfer(ctx, db, req, faults, clock, show);
      && a.result == Err(Sentinel(AccountNotFound))
      && a.db == db
      && a.statements == [BeginTx, SelectForUpdate(req.sourceId), RollbackTx]
  {
  }

  /** A failed destination read after a good source read is AccountNotFound too. */
  lemma DestinationReadFailureIsNotFound(ctx: Context, db: Db, req: TransferRequest, faults: set<Step>, clock: int, show: real -> string)
    requires Begin !in faults && LockSource !in faults && req.sourceId in db.accounts
    requires LockDestination in faults || req.destinationId !in db.accounts
    ensures var a := Transfer(ctx, db, req, faults, clock, show);
      && a.result == Err(Sentinel(AccountNotFound))
      && a.db == db
      && a.statements == [BeginTx, SelectForUpdate(req.sourceId), SelectForUpdate(req.destinationId), RollbackTx]
  {
  }

  /** A failed Begin returns ErrSystem before any row is read. */
  lemma BeginFailure(ctx: Context, db: Db, req: TransferRequest, clock: int, show: real -> string)
    ensures Transfer(ctx, db, req, {Begin}, clock, show) == Attempt(db, Err(Sentinel(SystemError)), [BeginTx])
  {
  }

  /** An aborted attempt's trace is what was sent, then the one rollback. */
  lemma AbortTrace(db: Db, k: Kind, sent: seq<Statement>)
    requires |sent| > 0 && sent[0] == BeginTx && RollbackTx !in sent
    ensures var a := Abort(db, k, sent);
      && |a.statements| > 1 && a.statements[0] == BeginTx
      && a.statements[|a.statements| - 1] == RollbackTx
      && a.statements[..|a.statements| - 1] == sent
      && RollbackTx !in a.statements[..|a.statements| - 1]
  {
  }

  /** A failure between the funds check and the commit: the store is
      unchanged, and the trace ends with the one rollback after the failing
      statement. */
  lemma FailureBeforeCommit(ctx: Context, db: Db, req: TransferRequest, s: Step, clock: int, show: real -> string)
    requires s in {InsertAudit, DebitSource, CreditDestination, FinalizeAudit}
    requires req.sourceId in db.accounts && req.destinationId in db.accounts
    requires !Decimal.LessThan(db.accounts[req.sourceId], req.amount)
    ensures var a := Transfer(ctx, db, req, {s}, clock, show);
      && a.result == Err(Sentinel(SystemError))
      && a.db == db
      && |a.statements| > 1 && a.statements[0] == BeginTx
      && a.statements[|a.statements| - 1] == RollbackTx
      && RollbackTx !in a.statements[..|a.statements| - 1]
  {
    var src, dst := req.sourceId, req.destinationId;
    var pending := PendingRow(db, req, Int64At(ctx, CorrelationKey), clock);
    var srcPost, dstPost := db.accounts[src] - req.amount, db.accounts[dst] + req.amount;
    var s3 := [BeginTx, SelectForUpdate(src), SelectForUpdate(dst), InsertTransfer(pending)];
    var s4 := s3 + [UpdateBalance(src, srcPost)];
    var s5 := s4 + [UpdateBalance(dst, dstPost)];
    var s6 := s5 + [UpdateTransfer(pending.transferId, Completed, srcPost, dstPost)];
    var a := Transfer(ctx, db, req, {s}, clock, show);
    match s
    case InsertAudit =>
      assert a == Abort(db, SystemError, s3);
      AbortTrace(db, SystemError, s3);
    case DebitSource =>
      assert a == Abort(db, SystemError, s4);
      AbortTrace(db, SystemError, s4);
    case CreditDestination =>
      assert a == Abort(db, SystemError, s5);
      AbortTrace(db, SystemError, s5);
    case FinalizeAudit =>
      assert a == Abort(db, SystemError, s6);
      AbortTrace(db, SystemError, s6);
  }

  /** A failed Commit: the store is unchanged and the trace ends with the
      commit, with no rollback anywhere in it. */
  lemma CommitFailure(ctx: Context, db: Db, req: TransferRequest, clock: int, show: real -> string)
    requires req.sourceId in db.accounts && req.destinationId in db.accounts
    requires !Decimal.LessThan(db.accounts[req.sourceId], req.amount)
    ensures var a := Transfer(ctx, db, req, {Commit}, clock, show);
      && a.result == Err(Sentinel(SystemError))
      && a.db == db
      && |a.statements| > 1 && a.statements[0] == BeginTx
      && a.statements[|a.statements| - 1] == CommitTx
      && RollbackTx !in a.statements
  {
    var src, dst := req.sourceId, req.destinationId;
    var pending := PendingRow(db, req, Int64At(ctx, CorrelationKey), clock);
    var srcPost, dstPost := db.accounts[src] - req.amount, db.accounts[dst] + req.amount;
    assert Transfer(ctx, db, req, {Commit}, clock, show).statements ==
      [BeginTx, SelectForUpdate(src), SelectForUpdate(dst), InsertTransfer(pending),
       UpdateBalance(src, srcPost), UpdateBalance(dst, dstPost),
       UpdateTransfer(pending.transferId, Completed, srcPost, dstPost), CommitTx];
  }

  /** A failure at Begin, at the audit insert, at either balance update, at the
      audit finalize or at the commit is SystemError and leaves the store as it
      was, the Pending row included. A failed Begin happens before any row is
      read, so it needs neither row to exist nor the funds to suffice. A failed
      Begin returns before the rollback is deferred, and a failed Commit has
      already ended the transaction, so only the failures in between send a
      rollback, as the last statement. */
  lemma StoreFailureIsSystemError(ctx: Context, db: Db, req: TransferRequest, s: Step, clock: int, show: real -> string)
    requires s in {Begin, InsertAudit, DebitSource, CreditDestination, FinalizeAudit, Commit}
    requires s != Begin ==> req.sourceId in db.accounts && req.destinationId in db.accounts
    requires s != Begin ==> !Decimal.LessThan(db.accounts[req.sourceId], req.amount)
    ensures var a := Transfer(ctx, db, req, {s}, clock, show);
      && a.result == Err(Sentinel(SystemError))
      && a.db == db
      && |a.statements| > 0 && a.statements[0] == BeginTx
      && (s == Begin <==> a.statements == [BeginTx])
      && (s == Commit ==> a.statements[|a.statements| - 1] == CommitTx)
      && (s !in {Begin, Commit} ==> a.statements[|a.statements| - 1] == RollbackTx)
      && RollbackTx !in a.statements[..|a.statements| - 1]
  {
    if s == Begin {
      BeginFailure(ctx, db, req, clock, show);
    } else if s == Commit {
      CommitFailure(ctx, db, req, clock, show);
    } else {
      FailureBeforeCommit(ctx, db, req, s, clock, show);
    }
  }

  /** The audit row's life on success: inserted Pending with the amount, the
      correlation id and both pre-balances, then the same transfer_id updated to
      Completed with both post-balances, then the commit. The committed table
      gains exactly that one Completed row. */
  lemma AuditLifecycle(ctx: Context, db: Db, req: TransferRequest, faults: set<Step>, clock: int, show: real -> string)
    requires Valid(db)
    requires Transfer(ctx, db, req, faults, clock, show).result.Ok?
    ensures var a := Transfer(ctx, db, req, faults, clock, show);
      var src, dst := req.sourceId, req.destinationId;
      var pending := AuditRow(NextTransferId(db), src, dst, req.amount, Int64At(ctx, CorrelationKey),
                              Pending, db.accounts[src], db.accounts[dst], None, None, clock);
      var srcPost, dstPost := db.accounts[src] - req.amount, db.accounts[dst] + req.amount;
      && a.statements == [BeginTx, SelectForUpdate(src), SelectForUpdate(dst), InsertTransfer(pending),
                          UpdateBalance(src, srcPost), UpdateBalance(dst, dstPost),
                          UpdateTransfer(pending.transferId, Completed, srcPost, dstPost), CommitTx]
      && a.db.transfers == db.transfers + [pending.(status := Completed, sourcePost := Some(srcPost), destinationPost := Some(dstPost))]
  {
  }

  /** Each committed transfer adds exactly one Completed row and never a Failed one. */
  lemma OneCompletedRowPerTransfer(ctx: Context, db: Db, req: TransferRequest, faults: set<Step>, clock: int, show: real -> string)
    requires Valid(db)
    requires Transfer(ctx, db, req, faults, clock, show).result.Ok?
    ensures var rows := Transfer(ctx, db, req, faults, clock, show).db.transfers;
      && CountStatus(rows, Completed) == CountStatus(db.transfers, Completed) + 1
      && CountStatus(rows, Pending) == CountStatus(db.transfers, Pending)
      && CountStatus(rows, Failed) == CountStatus(db.transfers, Failed)
  {
    AuditLifecycle(ctx, db, req, faults, clock, show);
    var rows := Transfer(ctx, db, req, faults, clock, show).db.transfers;
    assert rows[..|rows| - 1] == db.transfers;
  }

  /** The locks are taken in request order: source first, then destination,
      whichever id is smaller. */
  lemma LocksInRequestOrder(ctx: Context, db: Db, req: TransferRequest, faults: set<Step>, clock: int, show: real -> string)
    requires Begin !in faults
    ensures var a := Transfer(ctx, db, req, faults, clock, show);
      && |a.statements| >= 3
      && a.statements[1] == SelectForUpdate(req.sourceId)
      && (LockSource !in faults && req.sourceId in db.accounts ==> a.statements[2] == SelectForUpdate(req.destinationId))
  {
  }

  /** Two transfers between the same pair in opposite directions lock the pair
      in opposite orders, so each can hold the lock the other waits for: the
      canonical lower-id-first order is not followed. */
  lemma OppositeTransfersLockInOppositeOrder(ctx: Context, db: Db, x: Int64, y: Int64, amount: real, clock: int, show: real -> string)
    requires x != y && x in db.accounts && y in db.accounts
    ensures var ab := Transfer(ctx, db, TransferRequest(x, y, amount), {}, clock, show).statements;
      var ba := Transfer(ctx, db, TransferRequest(y, x, amount), {}, clock, show).statements;
      && ab[1] == SelectForUpdate(x) && ab[2] == SelectForUpdate(y)
      && ba[1] == SelectForUpdate(y) && ba[2] == SelectForUpdate(x)
  {
  }

  /** With the source equal to the destination, the second update overwrites the
      first: the account ends credited by the amount instead of unchanged. */
  lemma SelfTransferCreditsAmount(ctx: Context, db: Db, id: Int64, amount: real, clock: int, show: real -> string)
    requires id in db.accounts && amount <= db.accounts[id]
    ensures var a := Transfer(ctx, db, TransferRequest(id, id, amount), {}, clock, show);
      && a.result.Ok?
      && a.db.accounts[id] == db.accounts[id] + amount
      && a.result.value.sourcePostBalance == show(db.accounts[id] - amount)
  {
  }

  /** A self-transfer of a negative amount passes the funds check and can push
      a non-negative account below zero (10 with -20 ends at -10), so a
      non-negative source after a commit holds only between distinct accounts. */
  lemma SelfTransferCanGoNegative(ctx: Context, db: Db, id: Int64, amount: real, clock: int, show: real -> string)
    requires id in db.accounts && db.accounts[id] >= 0.0
    requires amount < 0.0 && db.accounts[id] + amount < 0.0
    ensures var a := Transfer(ctx, db, TransferRequest(id, id, amount), {}, clock, show);
      && a.result.Ok?
      && a.db.accounts[id] == db.accounts[id] + amount
      && a.db.accounts[id] < 0.0
  {
  }

  /** A negative amount passes the funds check and moves money from the
      destination to the source, and can drive the destination below zero. */
  lemma NegativeAmountAccepted(ctx: Context, db: Db, req: TransferRequest, clock: int, show: real -> string)
    requires req.sourceId != req.destinationId
    requires req.sourceId in db.accounts && req.destinationId in db.accounts
    requires req.amount < 0.0 && db.accounts[req.sourceId] >= 0.0
    requires db.accounts[req.destinationId] + req.amount < 0.0
    ensures var a := Transfer(ctx, db, req, {}, clock, show);
      && a.result.Ok?
      && a.db.accounts[req.destinationId] < 0.0
      && a.db.accounts[req.sourceId] > db.accounts[req.sourceId]
  {
  }

  /** The example: 1000 and 500, a transfer of 50 from 100 to 200 leaves 950
      and 550 and reports the source post-balance as 950. */
  lemma ExampleTransfer(ctx: Context, clock: int, show: real -> string)
    ensures var db := Db(map[100 := 1000.0, 200 := 500.0], []);
      var a := Transfer(ctx, db, TransferRequest(100, 200, 50.0), {}, clock, show);
      && a.result.Ok?
      && a.db.accounts == map[100 := 950.0, 200 := 550.0]
      && a.result.value.sourcePostBalance == show(950.0)
      && a.result.value.auditId == 1
  {
  }
}
