/** The edge's HTTP handlers: decode the JSON body, validate, forward over gRPC
    with the decimal printed as text, and translate the gRPC status into an
    HTTP status. JSON decoding is abstract: None is a body that does not decode. */
module HttpHandlers {
  import opened Results
  import opened Int64Text
  import opened Constants
  import opened Models
  import opened GrpcServer

  /** What the gRPC client returns on failure: a status error, or an error that
      carries no status (a transport failure, say). */
  datatype RpcError = StatusError(status: Status) | NonStatus(text: string)

  /** status.FromError on a non-nil error: the status, and whether there was one;
      an error without a status reads as code Unknown. */
  function FromError(e: RpcError): (r: (Status, bool))
    ensures r.1 <==> e.StatusError?
    ensures r.1 ==> r.0 == e.status
    ensures !r.1 ==> r.0.code == Unknown
  {
    match e
    case StatusError(s) => (s, true)
    case NonStatus(t) => (Status(Unknown, t), false)
  }

  const StatusOK: int := 200
  const StatusCreated: int := 201
  const StatusBadRequest: int := 400
  const StatusNotFound: int := 404
  const StatusConflict: int := 409
  const StatusUnprocessableEntity: int := 422
  const StatusInternalServerError: int := 500

  const InvalidJson: string := "Invalid JSON"
  const InternalServerError: string := "Internal Server Error"

  /** A response body: http.Error's plain text, or an encoded message. */
  datatype Body<P> = Plain(text: string) | Json(payload: P)

  datatype Response<P> = Response(code: int, body: Body<P>)

  /** The response written, and the gRPC request sent if one was. */
  datatype Exchange<P, A> = Exchange(response: Response<P>, sent: Option<A>)

  /** MakeTransfer's status table; every code it does not name is 500. */
  function TransferHttpCode(c: Code): (h: int)
    ensures c == NotFound <==> h == StatusNotFound
    ensures c == FailedPrecondition <==> h == StatusUnprocessableEntity
    ensures c == InvalidArgument <==> h == StatusBadRequest
    ensures c == AlreadyExists <==> h == StatusConflict
    ensures c !in {NotFound, FailedPrecondition, InvalidArgument, AlreadyExists} <==> h == StatusInternalServerError
  {
    match c
    case NotFound => StatusNotFound
    case FailedPrecondition => StatusUnprocessableEntity
    case InvalidArgument => StatusBadRequest
    case AlreadyExists => StatusConflict
    case _ => StatusInternalServerError
  }

  /** TransactionHandler.MakeTransfer. */
  function MakeTransfer(show: real -> string, body: Option<TransferRequest>,
                        client: TransferRequestPb -> Result<TransferResponsePb, RpcError>): (x: Exchange<TransferResponsePb, TransferRequestPb>)
    ensures body.None? ==> x == Exchange(Response(StatusBadRequest, Plain(InvalidJson)), None)
    ensures body.Some? && Validate(body.value).Fail? ==>
      x == Exchange(Response(StatusBadRequest, Plain(Text(Validate(body.value).error))), None)
    ensures body.Some? && Validate(body.value).Pass? ==>
      x.sent == Some(TransferRequestPb(body.value.sourceId, body.value.destinationId, show(body.value.amount)))
    ensures x.response.code == StatusOK <==> x.sent.Some? && client(x.sent.value).Ok?
    ensures x.response.code == StatusOK ==> x.response.body == Json(client(x.sent.value).value)
    ensures x.sent.Some? && client(x.sent.value).Err? ==>
      x.response.code == TransferHttpCode(FromError(client(x.sent.value).error).0.code)
    ensures x.response.code == StatusInternalServerError ==> x.response.body == Plain(InternalServerError)
  {
    match body
    case None => Exchange(Response(StatusBadRequest, Plain(InvalidJson)), None)
    case Some(req) =>
      match Validate(req)
      case Fail(e) => Exchange(Response(StatusBadRequest, Plain(Text(e))), None)
      case Pass =>
        var grpcReq := TransferRequestPb(req.sourceId, req.destinationId, show(req.amount));
        match client(grpcReq)
        case Ok(resp) => Exchange(Response(StatusOK, Json(resp)), Some(grpcReq))
        case Err(e) =>
          var st := FromError(e).0;
          var code := TransferHttpCode(st.code);
          var text := if code == StatusInternalServerError then InternalServerError else st.message;
          Exchange(Response(code, Plain(text)), Some(grpcReq))
  }

  /** AccountHandler.CreateAccount: no validation; only a status error with
      code AlreadyExists is 409, every other failure is 500. */
  function CreateAccount(show: real -> string, body: Option<CreateAccountRequest>,
                         client: CreateAccountRequestPb -> Result<CreateAccountResponsePb, RpcError>): (x: Exchange<CreateAccountResponsePb, CreateAccountRequestPb>)
    ensures body.None? ==> x == Exchange(Response(StatusBadRequest, Plain(InvalidJson)), None)
    ensures body.Some? ==> x.sent == Some(CreateAccountRequestPb(body.value.id, show(body.value.balance)))
    ensures x.response.code == StatusCreated <==> x.sent.Some? && client(x.sent.value).Ok?
    ensures x.response.code == StatusCreated ==> x.response.body == Json(client(x.sent.value).value)
    ensures x.response.code == StatusConflict <==>
      x.sent.Some? && client(x.sent.value).Err? && client(x.sent.value).error.StatusError? &&
      client(x.sent.value).error.status.code == AlreadyExists
    ensures x.response.code == StatusConflict ==> x.response.body == Plain("Account already exists")
    ensures x.response.code == StatusBadRequest <==> body.None?
    ensures x.sent.Some? && client(x.sent.value).Err? && x.response.code != StatusConflict ==>
      x.response == Response(StatusInternalServerError, Plain(InternalServerError))
    ensures x.response.code in {StatusBadRequest, StatusCreated, StatusConflict, StatusInternalServerError}
  {
    match body
    case None => Exchange(Response(StatusBadRequest, Plain(InvalidJson)), None)
    case Some(req) =>
      var grpcReq := CreateAccountRequestPb(req.id, show(req.balance));
      match client(grpcReq)
      case Ok(resp) => Exchange(Response(StatusCreated, Json(resp)), Some(grpcReq))
      case Err(e) =>
        var (st, ok) := FromError(e);
        if ok && st.code == AlreadyExists then
          Exchange(Response(StatusConflict, Plain("Account already exists")), Some(grpcReq))
        else
          Exchange(Response(StatusInternalServerError, Plain(InternalServerError)), Some(grpcReq))
  }
}
