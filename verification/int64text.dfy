/** Base-10 text of 64-bit signed integers: strconv.FormatInt(x, 10) (also what
    fmt's %d prints) and strconv.ParseInt(s, 10, 64) with its error discarded. */
module Int64Text {
  import opened Results

  const MinInt64: int := -0x8000_0000_0000_0000
  const MaxInt64: int := 0x7fff_ffff_ffff_ffff

  /** Go's int64. */
  type Int64 = x: int | MinInt64 <= x <= MaxInt64

  predicate IsDigit(c: char) {
    '0' <= c <= '9'
  }

  predicate AllDigits(s: string) {
    forall i :: 0 <= i < |s| ==> IsDigit(s[i])
  }

  function DigitChar(d: nat): (c: char)
    requires d < 10
    ensures IsDigit(c)
  {
    (48 + d) as char
  }

  function DigitValue(c: char): (d: nat)
    requires IsDigit(c)
    ensures d < 10 && DigitChar(d) == c
  {
    c as int - 48
  }

  /** The value of a string of decimal digits, most significant first. */
  function DigitsValue(s: string): nat
    requires AllDigits(s)
    decreases |s|
  {
    if s == [] then 0 else DigitsValue(s[..|s| - 1]) * 10 + DigitValue(s[|s| - 1])
  }

  /** The digits of n, most significant first, with no leading zero. */
  function FormatNat(n: nat): (s: string)
    ensures |s| > 0 && AllDigits(s)
    ensures s[0] == '0' <==> n == 0
    decreases n
  {
    if n < 10 then [DigitChar(n)] else FormatNat(n / 10) + [DigitChar(n % 10)]
  }

  lemma {:induction false} FormatNatValue(n: nat)
    ensures DigitsValue(FormatNat(n)) == n
    decreases n
  {
    var s := FormatNat(n);
    if n < 10 {
      assert s[..|s| - 1] == [];
    } else {
      FormatNatValue(n / 10);
      assert s[..|s| - 1] == FormatNat(n / 10);
      assert DigitValue(s[|s| - 1]) == n % 10;
    }
  }

  /** |x| as an unbounded natural (it does not fit in an int64 for MinInt64). */
  function Magnitude(x: int): nat {
    if x < 0 then 0 - x else x
  }

  /** strconv.FormatInt(x, 10): a '-' for negative values, then the digits of |x|. */
  function FormatInt(x: Int64): (s: string)
    ensures |s| > 0
    ensures s[0] == '-' <==> x < 0
  {
    if x < 0 then "-" + FormatNat(Magnitude(x)) else FormatNat(x)
  }

  /** strconv.ParseInt(s, 10, 64) with the error kind discarded: an optional
      '+' or '-', then one or more decimal digits (leading zeros allowed, no
      underscores in base 10), and a value inside the int64 range. */
  function ParseInt(s: string): Option<Int64>
  {
    if s == [] then None
    else
      var negative := s[0] == '-';
      var digits := if s[0] == '+' || s[0] == '-' then s[1..] else s;
      if digits == [] || !AllDigits(digits) then None
      else
        var v := DigitsValue(digits);
        if negative then
          (var n: int := 0 - v; if MinInt64 <= n then Some(n) else None)
        else
          (if v <= MaxInt64 then Some(v) else None)
  }

  /** Parsing what FormatInt printed gives the same integer back, for every int64
      including the most negative one. */
  lemma ParseFormatInt(x: Int64)
    ensures ParseInt(FormatInt(x)) == Some(x)
  {
    var s := FormatInt(x);
    if x < 0 {
      FormatNatValue(Magnitude(x));
      assert s[1..] == FormatNat(Magnitude(x));
    } else {
      FormatNatValue(x);
      assert IsDigit(s[0]);
    }
  }

  /** Distinct integers print differently. */
  lemma FormatIntInjective(a: Int64, b: Int64)
    requires FormatInt(a) == FormatInt(b)
    ensures a == b
  {
    ParseFormatInt(a);
    ParseFormatInt(b);
  }

  /** Every accepted text is non-empty and, after its optional sign, all digits. */
  lemma ParseIntAcceptsOnlySignedDigits(s: string)
    requires ParseInt(s).Some?
    ensures |s| > 0
    ensures var d := if s[0] == '+' || s[0] == '-' then s[1..] else s; |d| > 0 && AllDigits(d)
    ensures ParseInt(s).value < 0 ==> s[0] == '-'
  {
  }
}
