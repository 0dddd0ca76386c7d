/** The two services wired together: the edge's HTTP handler calls the core
    over gRPC with the correlation id in the call metadata; the core's
    interceptor recovers the id and runs the gRPC handler, which calls the
    service, which calls the cache and the transfer engine. */
module EndToEnd {
  import opened Results
  import opened Int64Text
  import opened Constants
  import opened Models
  import opened Database
  import opened GoContext
  import opened AccountCache
  import Decimal
  import TransferRepository
  import TransferService
  import AccountService
  import AccountRepository
  import Correlation
  import GrpcServer
  import HttpHandlers

  /** What the core's stores answer during one transfer call. */
  datatype TransferWorld = TransferWorld(
    db: Db,
    cache: Store,
    srcProbe: Probe,
    dstProbe: Probe,
    faults: set<TransferRepository.Step>,
    clock: int)

  /** What the core's stores answer during one create-account call. */
  datatype AccountWorld = AccountWorld(
    db: Db,
    cache: Store,
    probe: Probe,
    query: AccountRepository.Query,
    write: Write)

  /** The gRPC reply as the edge's client sees it, and the store afterwards. */
  datatype CoreReply<T> = CoreReply(reply: Result<T, HttpHandlers.RpcError>, db: Db)

  /** The context a core handler runs on for a call whose metadata carries the
      edge's id. */
  function CallContext(id: Int64): Context {
    Correlation.Recover(Context(map[], Some(Correlation.EdgeMetadata(id))))
  }

  /** A status returned by a handler reaches the client as a status error. */
  function ToClient<T, A>(h: GrpcServer.Handled<T, A>): Result<T, HttpHandlers.RpcError> {
    match h.reply
    case Ok(v) => Ok(v)
    case Err(st) => Err(HttpHandlers.StatusError(st))
  }

  /** The core's MakeTransfer RPC behind its interceptor. */
  function CoreTransfer(codec: Decimal.Codec, w: TransferWorld, id: Int64, pb: GrpcServer.TransferRequestPb): CoreReply<GrpcServer.TransferResponsePb> {
    var ctx := Context(map[], Some(Correlation.EdgeMetadata(id)));
    var h := Correlation.Intercept(ctx, pb,
      (c: Context, p: GrpcServer.TransferRequestPb) =>
        GrpcServer.MakeTransfer(codec.parse, p,
          r => TransferService.MakeTransfer(c, w.cache, w.db, r, w.srcProbe, w.dstProbe, w.faults, w.clock, codec.show).result));
    var db := match h.forwarded
      case None => w.db
      case Some(r) => TransferService.MakeTransfer(CallContext(id), w.cache, w.db, r, w.srcProbe, w.dstProbe, w.faults, w.clock, codec.show).db;
    CoreReply(ToClient(h), db)
  }

  /** The core's CreateAccount RPC behind its interceptor. */
  function CoreCreateAccount(codec: Decimal.Codec, w: AccountWorld, id: Int64, pb: GrpcServer.CreateAccountRequestPb): CoreReply<GrpcServer.CreateAccountResponsePb> {
    var ctx := Context(map[], Some(Correlation.EdgeMetadata(id)));
    var h := Correlation.Intercept(ctx, pb,
      (c: Context, p: GrpcServer.CreateAccountRequestPb) =>
        GrpcServer.CreateAccount(codec.parse, p,
          a => AccountService.CreateAccount(w.db, w.cache, a, w.probe, w.query, w.write).outcome));
    var db := match h.forwarded
      case None => w.db
      case Some(a) => AccountService.CreateAccount(w.db, w.cache, a, w.probe, w.query, w.write).db;
    CoreReply(ToClient(h), db)
  }

  /** POST /transfers end to end: the HTTP exchange and the store afterwards. */
  function EdgeTransfer(codec: Decimal.Codec, w: TransferWorld, id: Int64, body: Option<TransferRequest>)
    : (HttpHandlers.Exchange<GrpcServer.TransferResponsePb, GrpcServer.TransferRequestPb>, Db)
  {
    var x := HttpHandlers.MakeTransfer(codec.show, body, pb => CoreTransfer(codec, w, id, pb).reply);
    (x, if x.sent.Some? then CoreTransfer(codec, w, id, x.sent.value).db else w.db)
  }

  /** POST /accounts end to end: the HTTP exchange and the store afterwards. */
  function EdgeCreateAccount(codec: Decimal.Codec, w: AccountWorld, id: Int64, body: Option<CreateAccountRequest>)
    : (HttpHandlers.Exchange<GrpcServer.CreateAccountResponsePb, GrpcServer.CreateAccountRequestPb>, Db)
  {
    var x := HttpHandlers.CreateAccount(codec.show, body, pb => CoreCreateAccount(codec, w, id, pb).reply);
    (x, if x.sent.Some? then CoreCreateAccount(codec, w, id, x.sent.value).db else w.db)
  }

  /** The handler runs on a context where the repository's key holds nothing,
      so every committed transfer reports, and records, correlation id 0. */
  lemma CallContextReadsZero(id: Int64)
    ensures Int64At(CallContext(id), TransferRepository.CorrelationKey) == 0
  {
  }

  /** Whatever id the edge mints, a successful transfer answers with
      transaction id 0. */
  lemma TransactionIdAlwaysZero(codec: Decimal.Codec, w: TransferWorld, id: Int64, pb: GrpcServer.TransferRequestPb)
    requires CoreTransfer(codec, w, id, pb).reply.Ok?
    ensures CoreTransfer(codec, w, id, pb).reply.value.transactionId == 0
  {
  }

  /** The two tables composed: a service error reaches the HTTP client as 404,
      422, 400 or 500 by the first sentinel it matches in that order. */
  lemma ServiceErrorToHttp(e: Error)
    ensures HttpHandlers.TransferHttpCode(GrpcServer.TransferFailure(e).code) ==
      if Is(e, AccountNotFound) then 404
      else if Is(e, InsufficientFunds) then 422
      else if Is(e, SameAccount) then 400
      else 500
  {
  }

  /** The transfer status table never yields 409: AlreadyExists is not among
      the codes the core sends for a transfer. */
  lemma EdgeTransferCodes(codec: Decimal.Codec, w: TransferWorld, id: Int64, body: Option<TransferRequest>)
    ensures EdgeTransfer(codec, w, id, body).0.response.code in {200, 400, 404, 422, 500}
  {
  }

  /** Every account-service failure, the duplicate among them, reaches the
      client as 500: the core never sends AlreadyExists, so the edge's 409
      branch is dead. */
  lemma EdgeCreateAccountNever409(codec: Decimal.Codec, w: AccountWorld, id: Int64, body: Option<CreateAccountRequest>)
    ensures EdgeCreateAccount(codec, w, id, body).0.response.code in {201, 400, 500}
  {
  }

  /** A duplicate, whether the cache pre-check or the store catches it, reaches
      the client as 500 with the fixed body, and the store is unchanged. */
  lemma EdgeDuplicateIs500(codec: Decimal.Codec, w: AccountWorld, id: Int64, acc: Account)
    requires codec.parse(codec.show(acc.balance)) == Some(acc.balance)
    requires (w.probe.Reachable? && KeyFor(acc.id) in w.cache) || (w.query.Served? && acc.id in w.db.accounts)
    ensures var (x, db) := EdgeCreateAccount(codec, w, id, Some(CreateAccountRequest(acc.id, acc.balance)));
      && x.response == HttpHandlers.Response(500, HttpHandlers.Plain("Internal Server Error"))
      && db == w.db
  {
  }

  /** A transfer of 50 from an account holding 1000 to one holding 500, both
      cached and every store call succeeding: HTTP 200 with audit id 1 and
      transaction id 0, and one Completed audit row with correlation id 0
      whatever id the edge minted. */
  lemma EdgeTransferExample(codec: Decimal.Codec, id: Int64, clock: int)
    requires codec.parse(codec.show(50.0)) == Some(50.0)
    ensures var w := TransferWorld(Db(map[100 := 1000.0, 200 := 500.0], []),
                                   map[KeyFor(100) := Account(100, 1000.0), KeyFor(200) := Account(200, 500.0)],
                                   Reachable, Reachable, {}, clock);
      var (x, db) := EdgeTransfer(codec, w, id, Some(TransferRequest(100, 200, 50.0)));
      && x.response == HttpHandlers.Response(200, HttpHandlers.Json(GrpcServer.TransferResponsePb(true, 0, 1, codec.show(950.0))))
      && db == Db(map[100 := 950.0, 200 := 550.0],
                  [AuditRow(1, 100, 200, 50.0, 0, Completed, 1000.0, 500.0, Some(950.0), Some(550.0), clock)])
  {
  }

  /** A transfer the source cannot cover, with both locks taken: HTTP 422 with the fixed message, and
      the store as it was. */
  lemma EdgeInsufficientFunds(codec: Decimal.Codec, w: TransferWorld, id: Int64, req: TransferRequest)
    requires codec.parse(codec.show(req.amount)) == Some(req.amount)
    requires Models.Validate(req).Pass?
    requires KeyFor(req.sourceId) in w.cache && KeyFor(req.destinationId) in w.cache
    requires w.srcProbe.Reachable? && w.dstProbe.Reachable?
    requires TransferRepository.Begin !in w.faults
    requires TransferRepository.LockSource !in w.faults && TransferRepository.LockDestination !in w.faults
    requires req.sourceId in w.db.accounts && req.destinationId in w.db.accounts
    requires w.db.accounts[req.sourceId] < req.amount
    ensures EdgeTransfer(codec, w, id, Some(req)) ==
      (HttpHandlers.Exchange(HttpHandlers.Response(422, HttpHandlers.Plain("insufficient funds")),
                             Some(GrpcServer.TransferRequestPb(req.sourceId, req.destinationId, codec.show(req.amount)))),
       w.db)
  {
  }

  /** A self-transfer sent straight to the core is refused by the service with
      InvalidArgument before any store call, whatever the stores would say. */
  lemma CoreSelfTransferRefused(codec: Decimal.Codec, w: TransferWorld, id: Int64, pb: GrpcServer.TransferRequestPb)
    requires pb.sourceId == pb.destinationId
    requires codec.parse(pb.amount).Some?
    ensures CoreTransfer(codec, w, id, pb) ==
      CoreReply(Err(HttpHandlers.StatusError(GrpcServer.Status(GrpcServer.InvalidArgument, "source and destination cannot be same"))), w.db)
  {
  }
}
