/**
  JavaScript values as the repository layer sees them: the scalar values a
  field of a document can hold, records as finite maps from key to value, and
  the acknowledgement the document store sends back for a write.
 */
module Json {

  /** Document identifiers are opaque strings assigned by the store. */
  type Id = string

  /** A field value. `Undefined` is what reading an absent key yields. */
  datatype Value = Undefined | Null | Bool(b: bool) | Num(n: int) | Str(s: string)

  /** A plain JavaScript object with scalar fields. */
  type Fields = map<string, Value>

  /** `obj[key]`: the stored value, or `undefined` when the key is absent. */
  function Field(d: Fields, key: string): Value
  {
    if key in d then d[key] else Undefined
  }

  /** A record no field of which holds `undefined`. */
  predicate NoUndefined(d: Fields) {
    forall k :: k in d ==> d[k] != Undefined
  }

  /** What of a record survives `JSON.stringify`: keys whose value is
      `undefined` are dropped, so reading any key gives what it gave before. */
  function Defined(d: Fields): (r: Fields)
    ensures forall k :: k in r <==> k in d && d[k] != Undefined
    ensures forall k :: k in r ==> r[k] == d[k]
    ensures forall k :: Field(r, k) == Field(d, k)
    ensures NoUndefined(r)
  {
    map k | k in d && d[k] != Undefined :: d[k]
  }

  /** JavaScript truthiness (`NaN` is not modelled). */
  predicate Truthy(v: Value) {
    match v
    case Undefined => false
    case Null => false
    case Bool(b) => b
    case Num(n) => n != 0
    case Str(s) => s != ""
  }

  /** `a || null`: the value itself when truthy, `null` otherwise. */
  function OrNull(v: Value): Value
  {
    if Truthy(v) then v else Null
  }

  function DigitChar(d: nat): char
    requires d < 10
  {
    "0123456789"[d]
  }

  /** Decimal rendering of a natural number. */
  function Digits(n: nat): string
    decreases n
  {
    if n < 10 then [DigitChar(n)] else Digits(n / 10) + [DigitChar(n % 10)]
  }

  /** `String(v)`, the text a value contributes to a `+` concatenation. */
  function Show(v: Value): string {
    match v
    case Undefined => "undefined"
    case Null => "null"
    case Bool(b) => if b then "true" else "false"
    case Num(n) => if n < 0 then "-" + Digits(-n) else Digits(n)
    case Str(s) => s
  }
}
