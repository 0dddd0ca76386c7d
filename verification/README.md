# Ledger transfer path of the account-transfer system

This project models the money-moving path of a two-service account-transfer
system in Dafny, and proves properties of that model. The system has two halves:

- **The edge.** An HTTP API decodes JSON requests and validates transfer
  requests; account-creation requests are forwarded unvalidated. It mints a
  correlation id and forwards each request over gRPC.
- **The core.** An interceptor recovers the correlation id. A gRPC handler
  parses the decimal text and maps domain errors to status codes. Two
  services then do the work:
  - the account service creates, reads and warms accounts, using a Redis
    existence cache with write-through and read-repair;
  - the transfer service gates each transfer on the cache, then runs one SQL
    transaction. That transaction locks and reads both accounts, checks
    funds, writes a Pending audit row, moves the money, completes the audit
    row and commits.

Everything is a pure function over immutable values:

- **Store.** `Database.Db` is an account-id ↦ balance map plus the ordered
  `transfers` audit table.
- **Cache.** `AccountCache.Store` is a Redis key ↦ account map.
- **Money.** Amounts and balances are exact Dafny `real`s.
- **Errors.** Go error values are `Constants.Error`: a sentinel, a fresh
  `errors.New`, a driver error, or a `%w` wrap. `Constants.Is` plays
  `errors.Is`.
- **Context.** A Go context is `GoContext.Context`, keyed by (key type, key
  name), so two packages' same-named keys stay distinct.
- **Failures.** Every I/O failure is an oracle parameter:
  - `Probe` and `Write` for the cache;
  - `AccountRepository.Query` and `Scan` for SQL;
  - a set of failing `TransferRepository.Step`s for the transfer transaction;
  - `nat -> Write` for the warm-up loop.
- **Traces.** The engine returns the SQL statements it sent. The services
  return the collaborator calls they made. Ordering and "never called"
  facts are stated on these traces.
- **Decimal text.** `Decimal.Codec` (parse and print) is a parameter.
- **Integer text.** The base-10 int64 text used for correlation ids and cache
  keys is modelled concretely (`Int64Text`). Its round trip is proved.

Modules follow the source packages:

| module | models |
|---|---|
| `Constants` | errors and statuses |
| `Models` | request validators |
| `AccountCache` | the Redis cache |
| `AccountRepository` | the account repository |
| `TransferRepository` | the transfer engine |
| `TransferService` | the transfer service |
| `AccountService` | the account service |
| `Correlation` | the interceptor and the edge metadata |
| `GrpcServer` | the core's gRPC handlers |
| `HttpHandlers` | the edge's HTTP handlers |
| `EndToEnd` | everything wired together |

The model reproduces several behaviours of the code as written rather than
as perhaps intended. Each is stated as a lemma:

- **Lock order.** The canonical lock order is computed and then unused.
  Locks follow request order, so opposite transfers lock in opposite orders.
- **Unchecked transfers.** The engine checks neither the amount's sign nor
  that the ids differ. A self-transfer therefore credits the amount, a
  negative amount moves money backwards, and a negative self-transfer can
  leave the account below zero.
- **Duplicate accounts.** The duplicate rejection is a fresh error, not the
  sentinel. The sentinel for negative amounts is never declared. So every
  account-creation failure after the body decodes surfaces as HTTP 500, and
  the edge's 409 branch is dead.
- **Correlation id.** The interceptor stores the correlation id under its
  own key type. The repository reads under another key type, so every audit
  row and response carries correlation id 0.

## Model

Some members model library behaviour or wiring rather than lines of this
repository, and have no row: `Constants.Is` (errors.Is over a chain of `%w`
wraps), `GoContext.Int64At` (a comma-ok int64 assertion on a context value),
`HttpHandlers.FromError` (status.FromError), `AccountService.WarmOne` (one
iteration of the warm-up loop, whose row is `AccountService.WarmAll`), and the
`EndToEnd` functions that compose the handlers, interceptor, services and
engine for the end-to-end lemmas.

| member | source | states |
|---|---|---|
| Int64Text.FormatInt | internal/api/middleware/grpc_metadata.go:20-21 | the text is non-empty and starts with '-' exactly for negative values |
| Int64Text.FormatNatValue | internal/api/middleware/grpc_metadata.go:21 | the printed digits of n read back as n |
| Int64Text.ParseFormatInt | internal/core/interceptors/correlation.go:25 | parsing the base-10 text of any int64, including the minimum, gives it back |
| Int64Text.FormatIntInjective | internal/repository/cache.go:36 | distinct ids print differently |
| Int64Text.ParseIntAcceptsOnlySignedDigits | internal/core/interceptors/correlation.go:25 | an accepted text is an optional sign followed by at least one digit and nothing else; a negative value had a '-' |
| Constants.UntypedMatchesNothing | internal/core/handler/grpcserver.go:96-108 | an error with no sentinel in its cause chain matches no sentinel under errors.Is |
| Constants.TypedMatchesRoot | internal/core/handler/grpcserver.go:96-108 | an error with a sentinel in its chain matches the sentinel at the chain's root |
| Constants.WrappedIsCause | internal/service/transfer.go:53-56 | wrapping with %w matches exactly the sentinels the cause matches |
| Constants.FreshTextIsNotIdentity | internal/service/account.go:53 | errors.New with a sentinel's text prints the same but does not match that sentinel |
| Constants.StatusCode | internal/constants/transfer_status.go:5-9 | Pending, Completed and Failed are stored as 1, 2 and 3, one code each |
| Models.CanWithdraw | internal/models/account.go:10-12 | true exactly when the balance is not less than the amount (the negation of the engine's funds test); a true answer leaves a non-negative remainder |
| Models.Validate | internal/models/transfer.go:15-29 | passes iff amount > 0, both ids > 0 and the ids differ; amount is checked first, then the ids' sign, then their difference; every failure is a declared sentinel |
| GoContext.WithValue | internal/core/interceptors/correlation.go:26 | the new key holds the value and every other key is unchanged |
| GoContext.Int64AtAfterWithValue | internal/repository/transfer.go:29 | the comma-ok int64 read returns the int64 just stored under its key, 0 when the key holds another type, and is unaffected by a value stored under a different key |
| AccountCache.KeyForInjective | internal/repository/cache.go:36 | two ids share the key "account:<id>" only when they are equal |
| AccountCache.Exists | internal/repository/cache.go:44-51 | a reachable cache answers whether the key is present; a client failure becomes a "failed to check existence" wrap carrying no sentinel |
| AccountCache.SetAccount | internal/repository/cache.go:30-42 | a stored write upserts exactly the account's key and keeps every other entry; a marshal or server failure leaves the cache unchanged and returns the matching wrap |
| AccountCache.SetThenExists | internal/repository/cache.go:37 | after a stored write the account exists for any reachable probe (no expiry) |
| AccountCache.SetLastWriteWins | internal/repository/cache.go:36-37 | of two stored writes for one id the cache holds the second |
| AccountCache.SetLeavesOtherIdsAlone | internal/repository/cache.go:36-37 | a write for one id never changes the Exists answer for another |
| AccountRepository.GetAccount | internal/repository/account.go:29-46 | succeeds iff the query is served and the row exists, returning the stored id and balance; a missing row is AccountNotFound; any other failure is a "get account failed" wrap that is not AccountNotFound |
| AccountRepository.CreateAccount | internal/repository/account.go:48-59 | inserts exactly the new row when served and absent; otherwise the store is unchanged and the raw driver error, a duplicate key included, comes back untranslated |
| AccountRepository.CreateThenGet | internal/repository/account.go:29-59 | a served insert of a new account followed by a served lookup of its id returns exactly that account, and lookups of other ids are unaffected |
| AccountRepository.ScannedAppend | internal/repository/account.go:72-79 | the scan of two runs of rows is the concatenation of their scans |
| AccountRepository.ScannedMembers | internal/repository/account.go:72-79 | an account is in the scan result exactly when some row delivered it |
| AccountRepository.ScannedAllRows | internal/repository/account.go:72-79 | when every row scans, nothing is dropped and row order is kept position by position |
| AccountRepository.GetAll | internal/repository/account.go:61-87 | a query or iteration failure returns that error and nothing accumulated; otherwise the rows that scanned, in order, with failing rows skipped |
| TransferRepository.Finalize | internal/repository/transfer.go:91-98 | the row with the given transfer id becomes Completed with both post-balances; every other row is unchanged |
| TransferRepository.Transfer | internal/repository/transfer.go:27-115 | a failure leaves the store unchanged and is AccountNotFound, InsufficientFunds or ErrSystem; success needs both rows and sufficient funds, adds one audit row, keeps the account set, and reports the new transfer id, the repository-key correlation id, "SUCCESS", the clock and the printed source post-balance (read balance minus amount, for a self-transfer too) |
| TransferRepository.CommitsIff | internal/repository/transfer.go:31-106 | the transfer commits iff no round trip fails, both rows exist and the source balance is not less than the amount |
| TransferRepository.Conservation | internal/repository/transfer.go:77-89 | between distinct accounts the source loses and the destination gains the amount, every other balance is unchanged, and the total is preserved |
| TransferRepository.SourceStaysNonNegative | internal/repository/transfer.go:55-79 | a committed transfer between distinct accounts leaves the source at least 0; the destination ends no poorer iff the amount is not negative |
| TransferRepository.FullBalanceAccepted | internal/repository/transfer.go:55-78 | moving exactly the source balance commits and leaves the source at 0 |
| TransferRepository.InsufficientFundsLeavesNoTrace | internal/repository/transfer.go:55-57 | with insufficient funds the result is InsufficientFunds, the store is unchanged, and only begin, the two locking reads and the rollback are sent |
| TransferRepository.SourceReadFailureIsNotFound | internal/repository/transfer.go:45-48 | a failed source read is AccountNotFound and the destination is never read |
| TransferRepository.DestinationReadFailureIsNotFound | internal/repository/transfer.go:50-53 | a failed destination read after a good source read is AccountNotFound |
| TransferRepository.StoreFailureIsSystemError | internal/repository/transfer.go:31-106 | a failure at begin, whether or not the rows exist and the funds suffice, or at the audit insert, either balance update, finalize or commit is ErrSystem and the store is unchanged; a failed begin sends nothing after it, a failed commit ends the trace with the commit, and every failure in between ends it with the single rollback |
| TransferRepository.AuditLifecycle | internal/repository/transfer.go:61-98 | on success the exact statement sequence is begin, lock source, lock destination, insert Pending row with amount, correlation id and pre-balances, debit, credit, mark that transfer id Completed with post-balances, commit; the audit table gains exactly that Completed row |
| TransferRepository.OneCompletedRowPerTransfer | internal/repository/transfer.go:61-98 | a commit adds one Completed row and no Failed row |
| TransferRepository.LocksInRequestOrder | internal/repository/transfer.go:38-53 | the first locking read is the source and the second the destination, whatever their order as numbers |
| TransferRepository.OppositeTransfersLockInOppositeOrder | internal/repository/transfer.go:38-53 | transfers a→b and b→a take the two locks in opposite orders |
| TransferRepository.SelfTransferCreditsAmount | internal/repository/transfer.go:77-89 | with source equal to destination the balance grows by the amount |
| TransferRepository.SelfTransferCanGoNegative | internal/repository/transfer.go:55-89 | a self-transfer of a negative amount commits and can leave a non-negative account below 0 |
| TransferRepository.NegativeAmountAccepted | internal/repository/transfer.go:55-89 | a negative amount commits and can drive the destination below 0 |
| TransferRepository.ExampleTransfer | internal/repository/transfer.go:77-114 | 1000/500 with 50 moved becomes 950/550 with audit id 1 |
| TransferService.ValidateTransfer | internal/service/transfer.go:49-70 | passes iff the ids differ and both existence checks answer true; same ids fail with SameAccount and no call; a cache error is wrapped and is not AccountNotFound; a missing source stops before the destination is checked |
| TransferService.MakeTransfer | internal/service/transfer.go:31-47 | the engine is called, with the request unchanged, exactly when validation passes, and its result or error is returned as is |
| TransferService.SameAccountBeforeAnyCall | internal/service/transfer.go:50-52 | a self-transfer returns SameAccount with no cache or store call and the store unchanged |
| TransferService.CacheBalancesIgnored | internal/service/transfer.go:53-66 | caches with the same keys give the same outcome whatever balances they hold |
| AccountService.CreateAccount | internal/service/account.go:51-71 | a positive pre-check rejects with a fresh error and no further call; a failed pre-check is ignored; a store error is returned unchanged with the cache untouched; after an insert the answer is success whatever the cache write did, and a stored write caches the account and keeps every other entry |
| AccountService.CreateAccountErrorsMatchNoSentinel | internal/service/account.go:51-59 | no failure of account creation matches any sentinel |
| AccountService.GetAccount | internal/service/account.go:73-81 | the store's answer is returned unchanged; an error writes nothing; a success writes the account to the cache, ignoring a failed write |
| AccountService.ReadRepairFeedsPreCheck | internal/service/account.go:73-81 | after a read whose cache write was stored, the account exists in the cache, and creating the same id again is rejected by the pre-check with no store call |
| AccountService.LoadAllAccountsToCache | internal/service/account.go:32-49 | a fetch error is wrapped "failed to fetch accounts for warmup" with no cache write; otherwise one write per account in order, failures skipped, success, and count equal to the number of stored writes |
| AccountService.WarmAll | internal/service/account.go:38-46 | the loop leaves the cache of replaying every write in order and counts the stored ones |
| AccountService.WarmUpCovers | internal/service/account.go:39-46 | every account whose write was stored is in the cache afterwards |
| AccountService.WarmUpLastWriteWins | internal/service/account.go:39-46 | the cache holds the last stored write for each id |
| AccountService.WarmUpLeavesOthersAlone | internal/service/account.go:39-46 | ids not in the list keep their cache entry, or its absence |
| Correlation.Recover | internal/core/interceptors/correlation.go:22-30 | when the first correlation_id value parses as an int64, the context gains exactly that value under the interceptor's key and nothing else changes; with no metadata, no value or an unparseable first value the context is unchanged |
| Correlation.RecoverEdgeId | internal/api/middleware/grpc_metadata.go:20-23 | the id the edge puts in the metadata is the id the handler's context carries |
| Correlation.UnusableMetadataIgnored | internal/core/interceptors/correlation.go:24-30 | an empty list or an unparseable first value leaves the context unchanged |
| Correlation.OnlyFirstValueConsulted | internal/core/interceptors/correlation.go:25 | metadata lists with the same first value recover the same context values |
| Correlation.RepositoryReadsZero | internal/repository/transfer.go:14-16 | the interceptor's key is not the repository's, so the repository reads 0 after recovery |
| GrpcServer.CreateAccountFailure | internal/core/handler/grpcserver.go:57-68 | AlreadyExists iff the error matches the already-exists sentinel, InvalidArgument iff not that but the negative-amount one, otherwise Internal with the fixed message |
| GrpcServer.TransferFailure | internal/core/handler/grpcserver.go:96-108 | NotFound, FailedPrecondition, InvalidArgument by the first sentinel matched in that order, otherwise Internal; the message is always one of four fixed strings |
| GrpcServer.CreateAccount | internal/core/handler/grpcserver.go:45-72 | an unparseable balance is InvalidArgument with no service call; otherwise the id and the parsed balance are forwarded, success answers Success true and an error goes through the table |
| GrpcServer.MakeTransfer | internal/core/handler/grpcserver.go:74-121 | an unparseable amount is InvalidArgument with no service call; otherwise the ids and the parsed amount are forwarded; a result fills Success, TransactionId, AuditId and NewSourceBalance, and an error goes through the table |
| GrpcServer.CreateAccountUntypedIsInternal | internal/core/handler/grpcserver.go:57-68 | an error carrying no sentinel maps to Internal "internal system error" |
| HttpHandlers.TransferHttpCode | internal/api/handler/transfer.go:67-79 | NotFound 404, FailedPrecondition 422, InvalidArgument 400, AlreadyExists 409, and 500 exactly for every other code |
| HttpHandlers.MakeTransfer | internal/api/handler/transfer.go:28-87 | bad JSON is 400 "Invalid JSON" and a Validate failure is 400 with its text, both with no call; otherwise the ids and the printed amount are sent; 200 with the JSON reply iff the call succeeds; an error gets the table's status; a 500 always says "Internal Server Error" |
| HttpHandlers.CreateAccount | internal/api/handler/account.go:24-64 | bad JSON is 400 with no call; otherwise the id and printed balance are sent unvalidated; 201 iff the call succeeds; 409 iff the error is a status with code AlreadyExists; every other error, a non-status one included, is 500 "Internal Server Error"; 400 only for bad JSON |
| EndToEnd.CallContextReadsZero | internal/repository/transfer.go:29 | on the context the interceptor builds from the edge's metadata, the repository's key reads 0 |
| EndToEnd.TransactionIdAlwaysZero | internal/core/handler/grpcserver.go:111-118 | whatever id the edge minted, a successful transfer answers transaction id 0 |
| EndToEnd.ServiceErrorToHttp | internal/api/handler/transfer.go:67-79 | the two tables composed: AccountNotFound 404, InsufficientFunds 422, SameAccount 400, every other service error 500 |
| EndToEnd.EdgeTransferCodes | internal/api/handler/transfer.go:67-79 | a transfer request ends in 200, 400, 404, 422 or 500, never 409 |
| EndToEnd.EdgeCreateAccountNever409 | internal/api/handler/account.go:40-50 | for every request and store behaviour, account creation ends in 201, 400 or 500, never 409 |
| EndToEnd.EdgeDuplicateIs500 | internal/api/handler/account.go:40-50 | a duplicate found by the cache pre-check or by the store is 500 "Internal Server Error" and the store is unchanged |
| EndToEnd.EdgeTransferExample | internal/repository/transfer.go:77-114 | HTTP 200 with audit id 1 and transaction id 0 for 50 moved from 1000 to 500; the store holds 950/550 and one Completed row with correlation id 0, whatever id the edge minted |
| EndToEnd.EdgeInsufficientFunds | internal/api/handler/transfer.go:67-79 | a valid cached transfer the source cannot cover is 422 "insufficient funds" with the store unchanged |
| EndToEnd.CoreSelfTransferRefused | internal/service/transfer.go:50-52 | a self-transfer sent straight to the core is InvalidArgument with the store unchanged |

## Left out

- Concurrency, row locking and isolation are not modelled. `FOR UPDATE`, deadlocks, READ COMMITTED and context cancellation have no meaning in a sequential model. Only the order of the locking reads is stated.
- SQL, Redis and gRPC client plumbing and JSON encoding and decoding are abstract:
  - a request body either decodes (`Some`) or does not (`None`);
  - each round trip's failure is an oracle parameter;
  - a JSON marshal failure of a cached account is the `MarshalFails` oracle case.
- The decimal library is a parameter (`Decimal.Codec`). Its text format is not modelled, nor is a general printing-then-parsing round trip: there are countably many strings and uncountably many reals, so no codec round-trips every real, and the library round-trips decimals only. Each lemma that forwards an amount across the two hops assumes the round trip for that one amount.
- The deferred rollback that runs after a commit, successful or failed, finds the transaction already finished and sends nothing, so it is not in the statement trace.
- `time.Time` is an opaque `int` supplied by the caller as the row's creation time.
- Logging, configuration, process start-up and gRPC dialing are not modelled.
- The snowflake id generator is not part of this model. The edge's correlation id is an arbitrary int64 input. The edge's own context value and the `X-Correlation-ID` response header are not modelled.
- The transfer id comes from a database sequence. The model numbers audit rows 1, 2, … in insertion order. A rolled-back transfer does not consume a number, as it would in PostgreSQL, and the id is unbounded rather than int64.
- Int64Text.ParseInt: reports only whether the text parses, not the Go error kind (syntax or range), since callers ignore it. Leading zeros are accepted, as in Go.
- GrpcServer.MakeTransfer: the `(nil, nil)` path taken when the service returns neither result nor error is not modelled; the service model always returns one of the two.
- Correlation.Recover: metadata keys are taken as already lower-cased; gRPC's key normalisation is not modelled.
- `Correlation.Intercept` has no contract of its own. It calls the handler once, on the recovered context, and returns its answer by construction, so the interceptor's properties are stated on `Correlation.Recover`.
- AccountRepository.CreateAccount: the driver's duplicate-key error is one fixed text, `DuplicateKeyText`, not the driver's full error value.
- `Validate` and `CanWithdraw` not modifying their receiver is immediate here: every value is immutable.
- The HTTP middleware's handling of metadata beyond the base-10 formatting of the id is not modelled.
