/** Exact decimal arithmetic. Amounts and balances are Dafny reals, so addition
    and subtraction are exact as with the arbitrary-precision decimals of the
    system. The text form of a decimal belongs to the decimal library, which
    is not part of this model: it is supplied as a Codec. */
module Decimal {
  import opened Results

  predicate LessThan(a: real, b: real) {
    a < b
  }

  predicate LessThanOrEqual(a: real, b: real) {
    a <= b
  }

  predicate GreaterThanOrEqual(a: real, b: real) {
    a >= b
  }

  /** NewFromString (None when the text is not a decimal) and String. */
  datatype Codec = Codec(parse: string -> Option<real>, show: real -> string)
}
