/**
 * The dynamic-type predicates of src/internalValidators.ts and the
 * null/empty/required predicates composed from them.
 *
 * The file's `isEither` and `isAll` are the same reductions as those of
 * src/internal.ts and are used from module Internal; its `isNot` is written
 * directly as a negating closure and is modelled here.
 */
module InternalValidators {
  import opened JsValues
  import Internal

  /** `isNot(val)`: the negating closure. */
  function IsNot(val: BoolValidator): (r: BoolValidator)
    ensures forall x :: r(x) != val(x)
  {
    x => !val(x)
  }

  /** This negation and the composed one of module Internal agree everywhere. */
  lemma {:induction false} IsNotAgrees(val: BoolValidator, x: JsValue)
    ensures IsNot(val)(x) == Internal.IsNot(val)(x)
    ensures IsNot(IsNot(val))(x) == val(x)
  {
  }

  // ---------------------------------------------------------------- type tests

  function IsUndefined(v: JsValue): (r: bool)
    ensures r <==> v == Undefined
  {
    TypeOf(v) == "undefined"
  }

  /** `v === null`: null answers "object" to `typeof` but is not an array and not undefined. */
  function IsNull(v: JsValue): (r: bool)
    ensures r <==> v == Null
    ensures r ==> IsObject(v) && !IsArray(v) && !IsUndefined(v)
  {
    v == Null
  }

  function IsBoolean(v: JsValue): (r: bool)
    ensures r <==> v.Bool?
  {
    TypeOf(v) == "boolean"
  }

  /** True on every number, NaN and the infinities included. */
  function IsNumber(v: JsValue): (r: bool)
    ensures r <==> v.Num?
  {
    TypeOf(v) == "number"
  }

  function IsSymbol(v: JsValue): (r: bool)
    ensures r <==> v == Symbol
  {
    TypeOf(v) == "symbol"
  }

  function IsString(v: JsValue): (r: bool)
    ensures r <==> v.Str?
  {
    TypeOf(v) == "string"
  }

  function IsFunction(v: JsValue): (r: bool)
    ensures r <==> v == Function
  {
    TypeOf(v) == "function"
  }

  /** `typeof v === "object"`: true on null and on arrays, false on functions. */
  function IsObject(v: JsValue): (r: bool)
    ensures r <==> v == Null || v == PlainObject || v == Array
  {
    TypeOf(v) == "object"
  }

  /** `Array.isArray(v)`. */
  function IsArray(v: JsValue): (r: bool)
    ensures r ==> IsObject(v)
  {
    v == Array
  }

  /** Every value has exactly one `typeof` tag among the tests above. */
  lemma {:induction false} TypeTestsPartition(v: JsValue)
    ensures IsUndefined(v) || IsBoolean(v) || IsNumber(v) || IsSymbol(v) || IsString(v)
         || IsFunction(v) || IsObject(v)
    ensures IsString(v) ==> !IsUndefined(v) && !IsBoolean(v) && !IsNumber(v) && !IsObject(v)
    ensures IsObject(v) ==> !IsFunction(v) && !IsUndefined(v)
  {
  }

  // ---------------------------------------------------------------- derived tests

  /** `isEither(isUndefined, isNull)`. */
  function IsNullOrUndefined(v: JsValue): (r: bool)
    ensures r <==> v == Null || v == Undefined
  {
    Internal.IsEitherTwo(IsUndefined, IsNull, v);
    Internal.IsEither([IsUndefined, IsNull])(v)
  }

  /** `isNot(isNullOrUndefined)`: null is not defined here. */
  function IsDefined(v: JsValue): (r: bool)
    ensures r <==> v != Null && v != Undefined
  {
    IsNot(IsNullOrUndefined)(v)
  }

  /** `v === ""`: strict equality, so only a string of length zero passes. */
  function IsEmptyString(v: JsValue): (r: bool)
    ensures r <==> IsString(v) && |v.s| == 0
  {
    v == Str("")
  }

  /** `isAll(isString, isEmptyString)`. */
  function IsEmpty(v: JsValue): (r: bool)
    ensures r <==> v == Str("")
  {
    Internal.IsAllTwo(IsString, IsEmptyString, v);
    Internal.IsAll([IsString, IsEmptyString])(v)
  }

  /** `isAll(isString, isNot(isEmptyString))`. */
  function IsNonEmpty(v: JsValue): (r: bool)
    ensures r <==> v.Str? && v.s != ""
  {
    Internal.IsAllTwo(IsString, IsNot(IsEmptyString), v);
    Internal.IsAll([IsString, IsNot(IsEmptyString)])(v)
  }

  /** `isEither(isNullOrUndefined, isNonEmpty)`: holds on null and undefined as well. */
  function IsRequired(v: JsValue): (r: bool)
    ensures r <==> v == Null || v == Undefined || (v.Str? && v.s != "")
  {
    Internal.IsEitherTwo(IsNullOrUndefined, IsNonEmpty, v);
    Internal.IsEither([IsNullOrUndefined, IsNonEmpty])(v)
  }

  /** Emptiness and non-emptiness exclude each other, and on strings exactly one holds. */
  lemma {:induction false} EmptyNonEmptyExclusive(v: JsValue)
    ensures !(IsEmpty(v) && IsNonEmpty(v))
    ensures IsString(v) ==> IsEmpty(v) != IsNonEmpty(v)
    ensures !IsString(v) ==> !IsEmpty(v) && !IsNonEmpty(v)
  {
  }

  /** A defined value is required exactly when it is a non-empty string. */
  lemma {:induction false} RequiredWhenDefined(v: JsValue)
    ensures IsDefined(v) ==> (IsRequired(v) <==> IsNonEmpty(v))
    ensures IsRequired(Str("")) == false
    ensures !IsNullOrUndefined(v) && !IsString(v) ==> !IsRequired(v)
  {
  }

  /** The values the test suite feeds to these predicates. */
  lemma {:induction false} TestValues(t: string)
    requires t != ""
    ensures IsNullOrUndefined(Null) && IsNullOrUndefined(Undefined)
    ensures !IsNullOrUndefined(Str("")) && !IsNullOrUndefined(Num(Finite)) && !IsNullOrUndefined(Bool(false))
    ensures !IsDefined(Null) && !IsDefined(Undefined)
    ensures IsDefined(Str("")) && IsDefined(Num(Finite)) && IsDefined(Bool(false))
    ensures IsEmpty(Str("")) && !IsEmpty(Str(t))
    ensures !IsEmpty(Null) && !IsEmpty(Undefined) && !IsEmpty(Num(Finite)) && !IsEmpty(Bool(false))
  {
  }
}
