/**
 * The JSON-shaped values the widget stores and passes around, with the two
 * JavaScript coercions it uses on them: `String(v)` and truthiness.
 */
module JsValues {
  import opened Wrappers
  import opened Text

  /** A scalar JSON value as found in a stored candidate or a form payload. */
  datatype Value = Null | Bool(b: bool) | Num(n: int) | Str(s: string)

  /** A plain object: property name to value. Property order is not modelled. */
  type Object = map<string, Value>

  /** Property access `o[k]`; `None` stands for `undefined`. */
  function Get(o: Object, k: string): (r: Option<Value>)
    ensures r.Some? <==> k in o
    ensures r.Some? ==> r.value == o[k]
  {
    if k in o then Some(o[k]) else None
  }

  /** `String(n)` for an integer. */
  function IntToString(n: int): (r: string)
    ensures 1 <= |r|
    ensures n >= 0 ==> AllDigits(r) && DigitsValue(r) == n
    ensures n < 0 ==> r[0] == '-'
  {
    NatToStringRoundTrip(if n < 0 then -n else n);
    if n < 0 then "-" + NatToString(-n) else NatToString(n)
  }

  /** `String(v)` for a value that is present. */
  function ToJsString(v: Value): string {
    match v
    case Null => "null"
    case Bool(b) => if b then "true" else "false"
    case Num(n) => IntToString(n)
    case Str(s) => s
  }

  /** `String(v)` for a possibly missing value: `undefined` prints as "undefined". */
  function JsString(v: Option<Value>): string {
    match v
    case None => "undefined"
    case Some(x) => ToJsString(x)
  }

  /** `null` or `undefined`: the values `??` replaces. */
  predicate IsNullish(v: Option<Value>) {
    v.None? || v.value.Null?
  }

  /** `(v ?? "").toString()`: the text of a value, with nullish values read as "". */
  function TextOf(v: Option<Value>): (r: string)
    ensures IsNullish(v) ==> r == ""
    ensures !IsNullish(v) ==> r == ToJsString(v.value)
  {
    if IsNullish(v) then "" else ToJsString(v.value)
  }

  /** JavaScript truthiness of a scalar: not undefined, null, false, 0 or "". */
  predicate Truthy(v: Option<Value>) {
    match v
    case None => false
    case Some(Null) => false
    case Some(Bool(b)) => b
    case Some(Num(n)) => n != 0
    case Some(Str(s)) => s != ""
  }
}
