/** The shared constants package: the sentinel error values, Go's error
    wrapping and matching, and the transfer status codes. */
module Constants {

  /** The sentinel errors. All but the last are declared by the constants
      package; AmountMustNotBeNegative is only referenced, by the core
      CreateAccount handler, and no code path ever produces it. */
  datatype Kind =
    | AmountMustBePositive
    | InvalidAccountID
    | SameAccount
    | InsufficientFunds
    | AccountNotFound
    | SystemError
    | AccountAlreadyExists
    | AmountMustNotBeNegative

  predicate Declared(k: Kind) {
    k != AmountMustNotBeNegative
  }

  /** The text of each declared sentinel. The undeclared one has no text. */
  function Message(k: Kind): string {
    match k
    case AmountMustBePositive => "amount must be greater than zero"
    case InvalidAccountID => "invalid account_id: must be positive"
    case SameAccount => "source and destination account cannot be the same"
    case InsufficientFunds => "insufficient funds"
    case AccountNotFound => "account not found"
    case SystemError => "internal system error"
    case AccountAlreadyExists => "account already exists"
    case AmountMustNotBeNegative => ""
  }

  /** A Go error value, distinguished by identity the way errors.Is sees it. */
  datatype Error =
    | Sentinel(kind: Kind)
      /** errors.New at the point of failure: a new value, equal to no sentinel
          whatever its text. */
    | Fresh(text: string)
      /** An error made by a driver or client library (SQL, Redis, transport). */
    | Foreign(text: string)
      /** fmt.Errorf("<context>: %w", cause). */
    | Wrapped(context: string, cause: Error)

  /** errors.Is(e, sentinel k): e is the sentinel or wraps it. */
  function Is(e: Error, k: Kind): bool {
    match e
    case Sentinel(k') => k' == k
    case Wrapped(_, cause) => Is(cause, k)
    case Fresh(_) => false
    case Foreign(_) => false
  }

  /** e has no sentinel anywhere in its chain of causes. */
  predicate Untyped(e: Error) {
    match e
    case Sentinel(_) => false
    case Wrapped(_, cause) => Untyped(cause)
    case Fresh(_) => true
    case Foreign(_) => true
  }

  /** An untyped error matches no sentinel under errors.Is. */
  lemma {:induction false} UntypedMatchesNothing(e: Error, k: Kind)
    requires Untyped(e)
    ensures !Is(e, k)
  {
    match e
    case Wrapped(_, cause) =>
      UntypedMatchesNothing(cause, k);
    case Fresh(_) =>
    case Foreign(_) =>
  }

  /** The sentinel at the root of a typed error's chain of causes. */
  function Root(e: Error): Kind
    requires !Untyped(e)
  {
    match e
    case Sentinel(k) => k
    case Wrapped(_, cause) => Root(cause)
  }

  /** A typed error matches the sentinel at its root: so an error matches some
      sentinel exactly when it is not untyped. */
  lemma {:induction false} TypedMatchesRoot(e: Error)
    requires !Untyped(e)
    ensures Is(e, Root(e))
  {
    match e
    case Sentinel(_) =>
    case Wrapped(_, cause) =>
      TypedMatchesRoot(cause);
  }

  /** e.Error(). */
  function Text(e: Error): string {
    match e
    case Sentinel(k) => Message(k)
    case Fresh(t) => t
    case Foreign(t) => t
    case Wrapped(c, cause) => c + ": " + Text(cause)
  }

  /** Wrapping keeps the sentinel a cause matches and adds none. */
  lemma WrappedIsCause(c: string, cause: Error, k: Kind)
    ensures Is(Wrapped(c, cause), k) <==> Is(cause, k)
  {
  }

  /** An error built with errors.New carries a sentinel's text and still does
      not match it: the text of "account already exists" is not the identity of
      ErrAccountAlreadyExists. */
  lemma FreshTextIsNotIdentity(k: Kind)
    ensures Text(Fresh(Message(k))) == Text(Sentinel(k))
    ensures !Is(Fresh(Message(k)), k)
  {
  }

  /** Status of a row in the transfers table; stored as its integer code. */
  datatype TransferStatus = Pending | Completed | Failed

  /** iota + 1: Pending = 1, Completed = 2, Failed = 3. */
  function StatusCode(s: TransferStatus): (c: int)
    ensures 1 <= c <= 3
    ensures s == Pending <==> c == 1
    ensures s == Completed <==> c == 2
    ensures s == Failed <==> c == 3
  {
    match s
    case Pending => 1
    case Completed => 2
    case Failed => 3
  }
}
