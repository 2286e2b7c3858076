/**
 * The dynamically typed Python values that reach the core through settings
 * dictionaries, parsed JSON and recogniser segments, with the built-in
 * conversions `int()`, `float()` and `bool()` that the core applies to them.
 * Python floats are modelled as exact reals.
 */
module PyValues {
  import opened Wrappers

  datatype Value =
    | VNone
    | VBool(b: bool)
    | VInt(i: int)
    | VFloat(r: real)
    | VStr(s: string)
    | VList(items: seq<Value>)
    | VDict(entries: map<string, Value>)

  /** A Python `dict` with string keys. */
  type Dict = map<string, Value>

  /** The exception a conversion raises. */
  datatype PyError = TypeError | ValueError

  /** `d.get(key, default)`. */
  function Get(d: Dict, key: string, default: Value): Value {
    if key in d then d[key] else default
  }

  /** Truncation toward zero, as `int()` applies it to a float. */
  function Trunc(r: real): (n: int)
    ensures r >= 0.0 ==> 0 <= n && n as real <= r < n as real + 1.0
    ensures r < 0.0 ==> n <= 0 && n as real - 1.0 < r <= n as real
  {
    if r >= 0.0 then r.Floor else -((-r).Floor)
  }

  /** `float(v)`. Numbers convert; a string converts as the number parser `parse` reads
      it and raises `ValueError` otherwise; `None`, lists and dicts raise `TypeError`. */
  function ToFloat(v: Value, parse: string -> Option<real>): (r: Result<real, PyError>)
    ensures r.Success? <==> (v.VBool? || v.VInt? || v.VFloat? || (v.VStr? && parse(v.s).Some?))
    ensures r.Failure? ==> (r.error == ValueError <==> v.VStr?)
    ensures v.VFloat? ==> r == Success(v.r)
    ensures v.VInt? ==> r == Success(v.i as real)
    ensures v.VBool? ==> r == Success(if v.b then 1.0 else 0.0)
  {
    match v
    case VBool(b) => Success(if b then 1.0 else 0.0)
    case VInt(i) => Success(i as real)
    case VFloat(x) => Success(x)
    case VStr(s) => if parse(s).Some? then Success(parse(s).value) else Failure(ValueError)
    case _ => Failure(TypeError)
  }

  /** `int(v)`. Floats are truncated toward zero; a string converts as the integer
      parser `parse` reads it and raises `ValueError` otherwise; `None`, lists and
      dicts raise `TypeError`. */
  function ToInt(v: Value, parse: string -> Option<int>): (r: Result<int, PyError>)
    ensures r.Success? <==> (v.VBool? || v.VInt? || v.VFloat? || (v.VStr? && parse(v.s).Some?))
    ensures r.Failure? ==> (r.error == ValueError <==> v.VStr?)
    ensures v.VInt? ==> r == Success(v.i)
    ensures v.VFloat? ==> r == Success(Trunc(v.r))
    ensures v.VBool? ==> r == Success(if v.b then 1 else 0)
  {
    match v
    case VBool(b) => Success(if b then 1 else 0)
    case VInt(i) => Success(i)
    case VFloat(x) => Success(Trunc(x))
    case VStr(s) => if parse(s).Some? then Success(parse(s).value) else Failure(ValueError)
    case _ => Failure(TypeError)
  }

  /** `bool(v)`: Python truthiness. */
  predicate Truthy(v: Value) {
    match v
    case VNone => false
    case VBool(b) => b
    case VInt(i) => i != 0
    case VFloat(x) => x != 0.0
    case VStr(s) => s != ""
    case VList(items) => items != []
    case VDict(entries) => entries != map[]
  }
}
