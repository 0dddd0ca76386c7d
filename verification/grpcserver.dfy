/** The core's gRPC handlers: parse the decimal text, call the service, and
    translate a domain error into a status with a fixed message. */
module GrpcServer {
  import opened Results
  import opened Int64Text
  import opened Constants
  import opened Models

  /** gRPC status codes. */
  datatype Code =
    | OK | Canceled | Unknown | InvalidArgument | DeadlineExceeded | NotFound
    | AlreadyExists | PermissionDenied | ResourceExhausted | FailedPrecondition
    | Aborted | OutOfRange | Unimplemented | Internal | Unavailable | DataLoss
    | Unauthenticated

  datatype Status = Status(code: Code, message: string)

  datatype CreateAccountRequestPb = CreateAccountRequestPb(accountId: Int64, balance: string)

  datatype CreateAccountResponsePb = CreateAccountResponsePb(success: bool)

  datatype TransferRequestPb = TransferRequestPb(sourceId: Int64, destinationId: Int64, amount: string)

  datatype TransferResponsePb = TransferResponsePb(
    success: bool,
    transactionId: Int64,
    auditId: int,
    newSourceBalance: string)

  /** The handler's reply, and the argument it passed to the service if it
      called it. */
  datatype Handled<T, A> = Handled(reply: Result<T, Status>, forwarded: Option<A>)

  const InternalMessage: string := "internal system error"

  /** The status messages MakeTransfer can send for a service error. */
  const TransferMessages: set<string> :=
    {"account not found", "insufficient funds", "source and destination cannot be same", InternalMessage}

  /** CreateAccount's error table, consulted in this order with errors.Is. */
  function CreateAccountFailure(e: Error): (s: Status)
    ensures s.code in {AlreadyExists, InvalidArgument, Internal}
    ensures s.code == AlreadyExists <==> Is(e, AccountAlreadyExists)
    ensures s.code == InvalidArgument <==> !Is(e, AccountAlreadyExists) && Is(e, AmountMustNotBeNegative)
    ensures s.code == Internal ==> s.message == InternalMessage
  {
    if Is(e, AccountAlreadyExists) then Status(AlreadyExists, "account already exists")
    else if Is(e, AmountMustNotBeNegative) then Status(InvalidArgument, "")
    else Status(Internal, InternalMessage)
  }

  /** MakeTransfer's error table, consulted in this order with errors.Is. The
      message is fixed per code; the error's own text never leaves the core. */
  function TransferFailure(e: Error): (s: Status)
    ensures s.message in TransferMessages
    ensures s.code == NotFound <==> Is(e, AccountNotFound)
    ensures s.code == FailedPrecondition <==> !Is(e, AccountNotFound) && Is(e, InsufficientFunds)
    ensures s.code == InvalidArgument <==> !Is(e, AccountNotFound) && !Is(e, InsufficientFunds) && Is(e, SameAccount)
    ensures s.code == Internal <==> !Is(e, AccountNotFound) && !Is(e, InsufficientFunds) && !Is(e, SameAccount)
  {
    if Is(e, AccountNotFound) then Status(NotFound, "account not found")
    else if Is(e, InsufficientFunds) then Status(FailedPrecondition, "insufficient funds")
    else if Is(e, SameAccount) then Status(InvalidArgument, "source and destination cannot be same")
    else Status(Internal, InternalMessage)
  }

  /** GrpcHandler.CreateAccount: an unparseable balance is refused before the
      service is called; otherwise the id and the parsed balance are forwarded
      and the service's error goes through the table. */
  function CreateAccount(parse: string -> Option<real>, req: CreateAccountRequestPb,
                         service: Account -> Outcome<Error>): (h: Handled<CreateAccountResponsePb, Account>)
    ensures parse(req.balance).None? ==> h == Handled(Err(Status(InvalidArgument, "invalid balance format")), None)
    ensures parse(req.balance).Some? ==> h.forwarded == Some(Account(req.accountId, parse(req.balance).value))
    ensures h.reply.Ok? <==> h.forwarded.Some? && service(h.forwarded.value).Pass?
    ensures h.reply.Ok? ==> h.reply.value == CreateAccountResponsePb(true)
    ensures h.reply.Err? && h.forwarded.Some? ==> h.reply.error == CreateAccountFailure(service(h.forwarded.value).error)
  {
    match parse(req.balance)
    case None => Handled(Err(Status(InvalidArgument, "invalid balance format")), None)
    case Some(balance) =>
      var acc := Account(req.accountId, balance);
      match service(acc)
      case Fail(e) => Handled(Err(CreateAccountFailure(e)), Some(acc))
      case Pass => Handled(Ok(CreateAccountResponsePb(true)), Some(acc))
  }

  /** GrpcHandler.MakeTransfer: an unparseable amount is refused before the
      service is called; otherwise the ids and the parsed amount, of any sign,
      are forwarded, an error goes through the table, and a result fills the
      response. */
  function MakeTransfer(parse: string -> Option<real>, req: TransferRequestPb,
                        service: TransferRequest -> Result<TransferResult, Error>): (h: Handled<TransferResponsePb, TransferRequest>)
    ensures parse(req.amount).None? ==> h == Handled(Err(Status(InvalidArgument, "invalid amount format")), None)
    ensures parse(req.amount).Some? ==>
      h.forwarded == Some(TransferRequest(req.sourceId, req.destinationId, parse(req.amount).value))
    ensures h.reply.Ok? <==> h.forwarded.Some? && service(h.forwarded.value).Ok?
    ensures h.reply.Ok? ==>
      var result := service(h.forwarded.value).value;
      h.reply.value == TransferResponsePb(true, result.correlationId, result.auditId, result.sourcePostBalance)
    ensures h.reply.Err? && h.forwarded.Some? ==> h.reply.error == TransferFailure(service(h.forwarded.value).error)
  {
    match parse(req.amount)
    case None => Handled(Err(Status(InvalidArgument, "invalid amount format")), None)
    case Some(amount) =>
      var modelReq := TransferRequest(req.sourceId, req.destinationId, amount);
      match service(modelReq)
      case Err(e) => Handled(Err(TransferFailure(e)), Some(modelReq))
      case Ok(result) =>
        Handled(Ok(TransferResponsePb(true, result.correlationId, result.auditId, result.sourcePostBalance)), Some(modelReq))
  }

  /** The undeclared sentinel's branch is dead: a service error that carries no
      sentinel, as every account-service error does, is always Internal. */
  lemma CreateAccountUntypedIsInternal(e: Error)
    requires Untyped(e)
    ensures CreateAccountFailure(e) == Status(Internal, InternalMessage)
  {
  }
}
