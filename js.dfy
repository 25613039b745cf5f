/**
 * JavaScript values as the dispatcher sees them: the module properties it type-checks with
 * `typeof`, the values it tests for truthiness, and the values a template literal turns into text.
 * Numbers are modelled as mathematical integers.
 */
module Js {
  import opened Wrappers
  import opened Files

  datatype JsValue =
    | Undefined
    | Null
    | Boolean(b: bool)
    | Number(n: int)
    | String(s: string)
    /** A callable; its text is what `Function.prototype.toString` yields. */
    | Function(source: string)
    /** Any other object, identified by reference. */
    | Object(ref: nat)
    /** The file-description objects built by the directory walk (`recuriseFiles`). */
    | FileRecord(file: FileInfo)

  /** JavaScript truthiness: `undefined`, `null`, `false`, `0` and `""` are falsy; objects are truthy. */
  predicate Truthy(v: JsValue)
  {
    match v
    case Undefined => false
    case Null => false
    case Boolean(b) => b
    case Number(n) => n != 0
    case String(s) => s != ""
    case _ => true
  }

  /** The value of an optional string property: a missing one reads as `undefined`. */
  function OfOptional(s: Option<string>): (v: JsValue)
    ensures v.String? <==> s.Some?
    ensures s.Some? ==> v == String(s.value)
    ensures s.None? ==> v == Undefined
  {
    match s
    case Some(x) => String(x)
    case None => Undefined
  }

  /** A request's parsed query string: each parameter's value; a missing one reads as `undefined`. */
  type Query = map<string, string>

  /** `query[name]`. */
  function Param(query: Query, name: string): (v: JsValue)
    ensures v.String? <==> name in query
    ensures v.String? ==> v.s == query[name]
    ensures !v.String? ==> v == Undefined
  {
    if name in query then String(query[name]) else Undefined
  }

  function DigitChar(d: nat): char
    requires d < 10
  {
    "0123456789"[d]
  }

  /** Decimal text of a natural number, most significant digit first. */
  function NatText(n: nat): (t: string)
    ensures |t| >= 1
    ensures forall i :: 0 <= i < |t| ==> '0' <= t[i] <= '9'
  {
    if n < 10 then [DigitChar(n)] else NatText(n / 10) + [DigitChar(n % 10)]
  }

  /** `String(n)` for an integer: decimal digits, with a leading '-' for a negative number. */
  function IntText(n: int): string
  {
    if n < 0 then "-" + NatText(-n) else NatText(n)
  }

  /** The text `${v}` produces in a template literal. */
  function ToText(v: JsValue): string
  {
    match v
    case Undefined => "undefined"
    case Null => "null"
    case Boolean(b) => if b then "true" else "false"
    case Number(n) => IntText(n)
    case String(s) => s
    case Function(source) => source
    case Object(_) => "[object Object]"
    case FileRecord(_) => "[object Object]"
  }
}
