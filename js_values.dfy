/**
 * JavaScript values as the validators see them, the `typeof` operator, and the
 * synchronous validator shapes that take one such value.
 */
module JsValues {
  import opened ValidationResults

  /** Numbers are kept as a tag only: no predicate here looks at their magnitude. */
  datatype NumberKind = Finite | NaN | Infinite

  datatype JsValue =
    | Null
    | Undefined
    | Bool(b: bool)
    | Num(kind: NumberKind)
    | Str(s: string)
    | Symbol
    | Function
    | PlainObject
    | Array

  /** The result of JavaScript's `typeof`; `typeof null` and `typeof []` are both "object". */
  function TypeOf(v: JsValue): (t: string)
    ensures t == "undefined" <==> v == Undefined
    ensures t == "object" <==> v == Null || v == PlainObject || v == Array
  {
    match v
    case Null => "object"
    case Undefined => "undefined"
    case Bool(_) => "boolean"
    case Num(_) => "number"
    case Str(_) => "string"
    case Symbol => "symbol"
    case Function => "function"
    case PlainObject => "object"
    case Array => "object"
  }

  /** A predicate on one value. */
  type BoolValidator = JsValue -> bool

  /** A check on one value that returns "" on success and an error text otherwise. */
  type MessageValidator = JsValue -> string

  /** A check on one value that returns its validation result directly. */
  type SingleValidator = JsValue -> ValidationResult
}
