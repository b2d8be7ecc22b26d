/**
 * The Python values that flow through the result formatter: row fields and template
 * variables. Integers and strings are modelled exactly; every other Python object carries
 * the text `str()` gives for it.
 */
module Values {

  datatype Value =
    | IntV(i: int)
    | StrV(s: string)
    | Other(text: string)

  function DigitChar(d: nat): char
    requires d < 10
  {
    "0123456789"[d]
  }

  /** Decimal digits of a natural number, most significant first, without leading zeros. */
  function NatToString(n: nat): (r: string)
    ensures |r| > 0
    ensures forall i :: 0 <= i < |r| ==> '0' <= r[i] <= '9'
    decreases n
  {
    if n < 10 then [DigitChar(n)] else NatToString(n / 10) + [DigitChar(n % 10)]
  }

  /** Python's `str(i)` for an integer. */
  function IntToString(i: int): string {
    if i < 0 then "-" + NatToString(-i) else NatToString(i)
  }

  /** Python's `str(v)`, which is also what an empty format spec produces. */
  function ToString(v: Value): string {
    match v
    case IntV(i) => IntToString(i)
    case StrV(s) => s
    case Other(text) => text
  }
}
