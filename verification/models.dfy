/** The request, account and result records, and the validators on them. */
module Models {
  import opened Results
  import opened Int64Text
  import opened Constants
  import Decimal

  datatype Account = Account(id: Int64, balance: real)

  datatype CreateAccountRequest = CreateAccountRequest(id: Int64, balance: real)

  datatype TransferRequest = TransferRequest(sourceId: Int64, destinationId: Int64, amount: real)

  /** What a committed transfer reports; createdAt is the store's opaque timestamp. */
  datatype TransferResult = TransferResult(
    auditId: int,
    correlationId: Int64,
    status: string,
    sourcePostBalance: string,
    createdAt: int)

  /** Account.CanWithdraw: the balance covers the amount, the full balance included.
      It is exactly the negation of the engine's insufficient-funds test. */
  function CanWithdraw(a: Account, amount: real): (ok: bool)
    ensures ok <==> !Decimal.LessThan(a.balance, amount)
    ensures ok ==> a.balance - amount >= 0.0
  {
    Decimal.GreaterThanOrEqual(a.balance, amount)
  }

  /** TransferRequest.Validate: the amount is checked first, then both ids, then
      their difference. */
  function Validate(r: TransferRequest): (o: Outcome<Error>)
    ensures o.Pass? <==> r.amount > 0.0 && r.sourceId > 0 && r.destinationId > 0 && r.sourceId != r.destinationId
    ensures r.amount <= 0.0 ==> o == Fail(Sentinel(AmountMustBePositive))
    ensures r.amount > 0.0 && (r.sourceId <= 0 || r.destinationId <= 0) ==> o == Fail(Sentinel(InvalidAccountID))
    ensures r.amount > 0.0 && r.sourceId > 0 && r.sourceId == r.destinationId ==> o == Fail(Sentinel(SameAccount))
    ensures o.Fail? ==> o.error.Sentinel? && Declared(o.error.kind)
  {
    if Decimal.LessThanOrEqual(r.amount, 0.0) then Fail(Sentinel(AmountMustBePositive))
    else if r.sourceId <= 0 || r.destinationId <= 0 then Fail(Sentinel(InvalidAccountID))
    else if r.sourceId == r.destinationId then Fail(Sentinel(SameAccount))
    else Pass
  }
}
