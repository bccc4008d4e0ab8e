/**
 * The tables of common type validators of src/common.ts: the predicate
 * table, the message table built from it with `b2m`, and the result table
 * built from that with `m2s`. The twenty property names the tables share
 * are the constructors of `Entry`, and each table is a function of them.
 */
module Common {
  import opened JsValues
  import opened ValidationResults
  import Internal
  import IV = InternalValidators

  // ---------------------------------------------------------------- predicates of this table

  /** `v !== null`. */
  function IsNotNull(v: JsValue): (r: bool)
    ensures r == !IV.IsNull(v)
  {
    v != Null
  }

  /** `typeof v !== "undefined"`: unlike the internal `isDefined`, this holds on null. */
  function IsDefined(v: JsValue): (r: bool)
    ensures r == !IV.IsUndefined(v)
    ensures r <==> v != Undefined
  {
    TypeOf(v) != "undefined"
  }

  /** `isEither(isUndefined, isNull)`. */
  function IsNothing(v: JsValue): (r: bool)
    ensures r <==> v == Null || v == Undefined
  {
    Internal.IsEitherTwo(IV.IsUndefined, IV.IsNull, v);
    Internal.IsEither([IV.IsUndefined, IV.IsNull])(v)
  }

  /** `isNot(isNothing)`. */
  function IsSomething(v: JsValue): (r: bool)
    ensures r <==> v != Null && v != Undefined
  {
    Internal.IsNot(IsNothing)(v)
  }

  // ---------------------------------------------------------------- the tables

  /** The twenty names each table exposes, as the source's property names. */
  datatype Entry =
    | IsNullEntry | IsNotNullEntry | IsUndefinedEntry | IsDefinedEntry
    | IsNothingEntry | IsSomethingEntry | IsBooleanEntry | IsNotBooleanEntry
    | IsNumberEntry | IsNotNumberEntry | IsSymbolEntry | IsNotSymbolEntry
    | IsStringEntry | IsNotStringEntry | IsFunctionEntry | IsNotFunctionEntry
    | IsObjectEntry | IsNotObjectEntry | IsArrayEntry | IsNotArrayEntry
  {
    /** The property name of this entry in every table. */
    function Name(): string
    {
      match this
      case IsNullEntry => "isNull"
      case IsNotNullEntry => "isNotNull"
      case IsUndefinedEntry => "isUndefined"
      case IsDefinedEntry => "isDefined"
      case IsNothingEntry => "isNothing"
      case IsSomethingEntry => "isSomething"
      case IsBooleanEntry => "isBoolean"
      case IsNotBooleanEntry => "isNotBoolean"
      case IsNumberEntry => "isNumber"
      case IsNotNumberEntry => "isNotNumber"
      case IsSymbolEntry => "isSymbol"
      case IsNotSymbolEntry => "isNotSymbol"
      case IsStringEntry => "isString"
      case IsNotStringEntry => "isNotString"
      case IsFunctionEntry => "isFunction"
      case IsNotFunctionEntry => "isNotFunction"
      case IsObjectEntry => "isObject"
      case IsNotObjectEntry => "isNotObject"
      case IsArrayEntry => "isArray"
      case IsNotArrayEntry => "isNotArray"
    }

    /** Whether this is one of the ten `isNotX` / `isDefined` / `isSomething` entries. */
    predicate Negative()
    {
      this in {IsNotNullEntry, IsDefinedEntry, IsSomethingEntry, IsNotBooleanEntry, IsNotNumberEntry,
               IsNotSymbolEntry, IsNotStringEntry, IsNotFunctionEntry, IsNotObjectEntry, IsNotArrayEntry}
    }

    /** The entry of the same table that this one negates, or is negated by. */
    function Opposite(): Entry
    {
      match this
      case IsNullEntry => IsNotNullEntry
      case IsNotNullEntry => IsNullEntry
      case IsUndefinedEntry => IsDefinedEntry
      case IsDefinedEntry => IsUndefinedEntry
      case IsNothingEntry => IsSomethingEntry
      case IsSomethingEntry => IsNothingEntry
      case IsBooleanEntry => IsNotBooleanEntry
      case IsNotBooleanEntry => IsBooleanEntry
      case IsNumberEntry => IsNotNumberEntry
      case IsNotNumberEntry => IsNumberEntry
      case IsSymbolEntry => IsNotSymbolEntry
      case IsNotSymbolEntry => IsSymbolEntry
      case IsStringEntry => IsNotStringEntry
      case IsNotStringEntry => IsStringEntry
      case IsFunctionEntry => IsNotFunctionEntry
      case IsNotFunctionEntry => IsFunctionEntry
      case IsObjectEntry => IsNotObjectEntry
      case IsNotObjectEntry => IsObjectEntry
      case IsArrayEntry => IsNotArrayEntry
      case IsNotArrayEntry => IsArrayEntry
    }
  }

  /**
   * What each entry of the predicate table accepts, stated on the shape of
   * the value rather than through the `typeof` tests.
   */
  predicate Accepts(e: Entry, v: JsValue)
  {
    match e
    case IsNullEntry => v == Null
    case IsNotNullEntry => v != Null
    case IsUndefinedEntry => v == Undefined
    case IsDefinedEntry => v != Undefined
    case IsNothingEntry => v == Null || v == Undefined
    case IsSomethingEntry => v != Null && v != Undefined
    case IsBooleanEntry => v.Bool?
    case IsNotBooleanEntry => !v.Bool?
    case IsNumberEntry => v.Num?
    case IsNotNumberEntry => !v.Num?
    case IsSymbolEntry => v == Symbol
    case IsNotSymbolEntry => v != Symbol
    case IsStringEntry => v.Str?
    case IsNotStringEntry => !v.Str?
    case IsFunctionEntry => v == Function
    case IsNotFunctionEntry => v != Function
    case IsObjectEntry => v == Null || v == PlainObject || v == Array
    case IsNotObjectEntry => !(v == Null || v == PlainObject || v == Array)
    case IsArrayEntry => v == Array
    case IsNotArrayEntry => v != Array
  }

  /** The predicate table `bool`; each `isNotX` entry is `isNot(isX)`. */
  function BoolCommon(e: Entry): (b: BoolValidator)
    ensures forall v :: b(v) == Accepts(e, v)
  {
    match e
    case IsNullEntry => IV.IsNull
    case IsNotNullEntry => IsNotNull
    case IsUndefinedEntry => IV.IsUndefined
    case IsDefinedEntry => IsDefined
    case IsNothingEntry => IsNothing
    case IsSomethingEntry => IsSomething
    case IsBooleanEntry => IV.IsBoolean
    case IsNotBooleanEntry => Internal.IsNot(IV.IsBoolean)
    case IsNumberEntry => IV.IsNumber
    case IsNotNumberEntry => Internal.IsNot(IV.IsNumber)
    case IsSymbolEntry => IV.IsSymbol
    case IsNotSymbolEntry => Internal.IsNot(IV.IsSymbol)
    case IsStringEntry => IV.IsString
    case IsNotStringEntry => Internal.IsNot(IV.IsString)
    case IsFunctionEntry => IV.IsFunction
    case IsNotFunctionEntry => Internal.IsNot(IV.IsFunction)
    case IsObjectEntry => IV.IsObject
    case IsNotObjectEntry => Internal.IsNot(IV.IsObject)
    case IsArrayEntry => IV.IsArray
    case IsNotArrayEntry => Internal.IsNot(IV.IsArray)
  }

  /** The failure text each entry of the message table is built with. */
  function Text(e: Entry): (t: string)
    ensures t != ""
  {
    match e
    case IsNullEntry => "Should be null"
    case IsNotNullEntry => "Should not be null"
    case IsUndefinedEntry => "Should be undefined"
    case IsDefinedEntry => "Should be defined"
    case IsNothingEntry => "Should be nothing"
    case IsSomethingEntry => "Should be something"
    case IsBooleanEntry => "Should be a boolean"
    case IsNotBooleanEntry => "Should not be a boolean"
    case IsNumberEntry => "Should be a number"
    case IsNotNumberEntry => "Should not be a number"
    case IsSymbolEntry => "Should be a symbol"
    case IsNotSymbolEntry => "Should not be a symbol"
    case IsStringEntry => "Should be a string"
    case IsNotStringEntry => "Should not be a string"
    case IsFunctionEntry => "Should be a function"
    case IsNotFunctionEntry => "Should not be a function"
    case IsObjectEntry => "Should be an object"
    case IsNotObjectEntry => "Should not be an object"
    case IsArrayEntry => "Should be an array"
    case IsNotArrayEntry => "Should not be an array"
  }

  /** The message table `message`: entry X is "" when `bool.X` holds and X's fixed text otherwise. */
  function MessageCommon(e: Entry): (m: MessageValidator)
    ensures forall v :: m(v) == "" <==> BoolCommon(e)(v)
    ensures forall v :: !BoolCommon(e)(v) ==> m(v) == Text(e)
  {
    Internal.B2m(Text(e), BoolCommon(e))
  }

  /** The result table `sync`: entry X is a success when `bool.X` holds and the error with X's text otherwise. */
  function SyncCommon(e: Entry): (s: SingleValidator)
    ensures forall v :: s(v) == if BoolCommon(e)(v) then SuccessResult() else ErrorResult(Text(e))
  {
    Internal.M2s(MessageCommon(e))
  }

  // ---------------------------------------------------------------- properties

  /** Each entry is the pointwise negation of its opposite, and the negative entries are the `isNot` halves. */
  lemma {:induction false} OppositesNegate(e: Entry, v: JsValue)
    ensures e.Opposite().Opposite() == e
    ensures e.Opposite().Negative() != e.Negative()
    ensures BoolCommon(e.Opposite())(v) == !BoolCommon(e)(v)
  {
    if e in {IsNullEntry, IsNotNullEntry, IsUndefinedEntry, IsDefinedEntry, IsNothingEntry, IsSomethingEntry} {
      NullishOppositesNegate(e, v);
    } else if e in {IsFunctionEntry, IsNotFunctionEntry} {
      FunctionOppositesNegate(e, v);
    } else if e in {IsObjectEntry, IsNotObjectEntry, IsArrayEntry, IsNotArrayEntry} {
      ObjectOppositesNegate(e, v);
    } else {
      PrimitiveOppositesNegate(e, v);
    }
  }

  /** OppositesNegate for the null, undefined and nothing entries. */
  lemma {:induction false} NullishOppositesNegate(e: Entry, v: JsValue)
    requires e in {IsNullEntry, IsNotNullEntry, IsUndefinedEntry, IsDefinedEntry, IsNothingEntry, IsSomethingEntry}
    ensures e.Opposite().Opposite() == e
    ensures e.Opposite().Negative() != e.Negative()
    ensures BoolCommon(e.Opposite())(v) == !BoolCommon(e)(v)
  {
  }

  /** OppositesNegate for the boolean, number, symbol and string entries. */
  lemma {:induction false} PrimitiveOppositesNegate(e: Entry, v: JsValue)
    requires e in {IsBooleanEntry, IsNotBooleanEntry, IsNumberEntry, IsNotNumberEntry,
                   IsSymbolEntry, IsNotSymbolEntry, IsStringEntry, IsNotStringEntry}
    ensures e.Opposite().Opposite() == e
    ensures e.Opposite().Negative() != e.Negative()
    ensures BoolCommon(e.Opposite())(v) == !BoolCommon(e)(v)
  {
  }

  /** OppositesNegate for the function entries. */
  lemma {:induction false} FunctionOppositesNegate(e: Entry, v: JsValue)
    requires e in {IsFunctionEntry, IsNotFunctionEntry}
    ensures e.Opposite().Opposite() == e
    ensures e.Opposite().Negative() != e.Negative()
    ensures BoolCommon(e.Opposite())(v) == !BoolCommon(e)(v)
  {
  }

  /** OppositesNegate for the object and array entries. */
  lemma {:induction false} ObjectOppositesNegate(e: Entry, v: JsValue)
    requires e in {IsObjectEntry, IsNotObjectEntry, IsArrayEntry, IsNotArrayEntry}
    ensures e.Opposite().Opposite() == e
    ensures e.Opposite().Negative() != e.Negative()
    ensures BoolCommon(e.Opposite())(v) == !BoolCommon(e)(v)
  {
  }

  /** Nothing is null or undefined, something is everything else; `isDefined` holds on null. */
  lemma {:induction false} NothingAndDefined(v: JsValue)
    ensures BoolCommon(IsNothingEntry)(v) <==> v == Null || v == Undefined
    ensures BoolCommon(IsSomethingEntry)(v) == !BoolCommon(IsNothingEntry)(v)
    ensures BoolCommon(IsDefinedEntry)(Null)
    ensures BoolCommon(IsDefinedEntry)(v) && !IV.IsDefined(v) <==> v == Null
  {
  }

  /** `isObject` accepts null, plain objects and arrays but not functions; `isArray` only arrays. */
  lemma {:induction false} ObjectsAndArrays(v: JsValue)
    ensures BoolCommon(IsObjectEntry)(v) <==> v == Null || v == PlainObject || v == Array
    ensures BoolCommon(IsArrayEntry)(v) <==> v == Array
    ensures BoolCommon(IsArrayEntry)(v) ==> BoolCommon(IsObjectEntry)(v)
    ensures !BoolCommon(IsObjectEntry)(Function)
  {
  }

  /** `isNumber` accepts NaN and the infinities; `isString` accepts every string. */
  lemma {:induction false} NumbersAndStrings(k: NumberKind, s: string)
    ensures BoolCommon(IsNumberEntry)(Num(k))
    ensures BoolCommon(IsStringEntry)(Str(s))
    ensures !BoolCommon(IsNumberEntry)(Str(s)) && !BoolCommon(IsStringEntry)(Num(k))
  {
  }

  // ---------------------------------------------------------------- the test suite's truth table

  /** null, undefined, true, false, 0, 10, Infinity, NaN, "", "abc", a function, {} and []. */
  const TableValues: seq<JsValue> := [
    Null, Undefined, Bool(true), Bool(false), Num(Finite), Num(Finite), Num(Infinite), Num(NaN),
    Str(""), Str("abc"), Function, PlainObject, Array
  ]

  /** The row of marks a predicate gives on the table values: 'X' where it holds, '.' elsewhere. */
  function Marks(p: BoolValidator): (row: string)
    ensures |row| == |TableValues|
    ensures forall i | 0 <= i < |row| :: row[i] == (if p(TableValues[i]) then 'X' else '.')
  {
    seq(|TableValues|, i requires 0 <= i < |TableValues| => if p(TableValues[i]) then 'X' else '.')
  }

  /** The expected row of the test suite's truth table for each entry. */
  function Expected(e: Entry): string
  {
    match e
    case IsNullEntry => "X............"
    case IsNotNullEntry => ".XXXXXXXXXXXX"
    case IsUndefinedEntry => ".X..........."
    case IsDefinedEntry => "X.XXXXXXXXXXX"
    case IsNothingEntry => "XX..........."
    case IsSomethingEntry => "..XXXXXXXXXXX"
    case IsBooleanEntry => "..XX........."
    case IsNotBooleanEntry => "XX..XXXXXXXXX"
    case IsNumberEntry => "....XXXX....."
    case IsNotNumberEntry => "XXXX....XXXXX"
    case IsSymbolEntry => "............."
    case IsNotSymbolEntry => "XXXXXXXXXXXXX"
    case IsStringEntry => "........XX..."
    case IsNotStringEntry => "XXXXXXXX..XXX"
    case IsFunctionEntry => "..........X.."
    case IsNotFunctionEntry => "XXXXXXXXXX.XX"
    case IsObjectEntry => "X..........XX"
    case IsNotObjectEntry => ".XXXXXXXXXX.."
    case IsArrayEntry => "............X"
    case IsNotArrayEntry => "XXXXXXXXXXXX."
  }

  /** Every predicate of the table gives exactly the expected row on the thirteen test values. */
  lemma {:induction false} TruthTable(e: Entry)
    ensures Marks(BoolCommon(e)) == Expected(e)
  {
    var row, want := Marks(BoolCommon(e)), Expected(e);
    MarkAt(e, 0);
    forall i | 0 <= i < |row|
      ensures row[i] == want[i]
    {
      MarkAt(e, i);
    }
  }

  /** One cell of the truth table. */
  lemma {:induction false} MarkAt(e: Entry, i: nat)
    requires i < |TableValues|
    ensures |Expected(e)| == |TableValues|
    ensures Marks(BoolCommon(e))[i] == Expected(e)[i]
  {
    match e
    case IsNullEntry | IsNotNullEntry => NullMarkAt(e, i);
    case IsUndefinedEntry | IsDefinedEntry => UndefinedMarkAt(e, i);
    case IsNothingEntry | IsSomethingEntry => NothingMarkAt(e, i);
    case IsBooleanEntry | IsNotBooleanEntry => BooleanMarkAt(e, i);
    case IsNumberEntry | IsNotNumberEntry => NumberMarkAt(e, i);
    case IsSymbolEntry | IsNotSymbolEntry => SymbolMarkAt(e, i);
    case IsStringEntry | IsNotStringEntry => StringMarkAt(e, i);
    case IsFunctionEntry | IsNotFunctionEntry => FunctionMarkAt(e, i);
    case IsObjectEntry | IsNotObjectEntry => ObjectMarkAt(e, i);
    case IsArrayEntry | IsNotArrayEntry => ArrayMarkAt(e, i);
  }

  /** The cells of the null row and of its negation. */
  lemma {:induction false} NullMarkAt(e: Entry, i: nat)
    requires i < |TableValues| && (e == IsNullEntry || e == IsNotNullEntry)
    ensures |Expected(e)| == |TableValues|
    ensures Marks(BoolCommon(e))[i] == Expected(e)[i]
  {
  }

  /** The cells of the undefined row and of its negation. */
  lemma {:induction false} UndefinedMarkAt(e: Entry, i: nat)
    requires i < |TableValues| && (e == IsUndefinedEntry || e == IsDefinedEntry)
    ensures |Expected(e)| == |TableValues|
    ensures Marks(BoolCommon(e))[i] == Expected(e)[i]
  {
  }

  /** The cells of the nothing row and of its negation. */
  lemma {:induction false} NothingMarkAt(e: Entry, i: nat)
    requires i < |TableValues| && (e == IsNothingEntry || e == IsSomethingEntry)
    ensures |Expected(e)| == |TableValues|
    ensures Marks(BoolCommon(e))[i] == Expected(e)[i]
  {
  }

  /** The cells of the boolean row and of its negation. */
  lemma {:induction false} BooleanMarkAt(e: Entry, i: nat)
    requires i < |TableValues| && (e == IsBooleanEntry || e == IsNotBooleanEntry)
    ensures |Expected(e)| == |TableValues|
    ensures Marks(BoolCommon(e))[i] == Expected(e)[i]
  {
  }

  /** The cells of the number row and of its negation. */
  lemma {:induction false} NumberMarkAt(e: Entry, i: nat)
    requires i < |TableValues| && (e == IsNumberEntry || e == IsNotNumberEntry)
    ensures |Expected(e)| == |TableValues|
    ensures Marks(BoolCommon(e))[i] == Expected(e)[i]
  {
  }

  /** The cells of the symbol row and of its negation. */
  lemma {:induction false} SymbolMarkAt(e: Entry, i: nat)
    requires i < |TableValues| && (e == IsSymbolEntry || e == IsNotSymbolEntry)
    ensures |Expected(e)| == |TableValues|
    ensures Marks(BoolCommon(e))[i] == Expected(e)[i]
  {
  }

  /** The cells of the string row and of its negation. */
  lemma {:induction false} StringMarkAt(e: Entry, i: nat)
    requires i < |TableValues| && (e == IsStringEntry || e == IsNotStringEntry)
    ensures |Expected(e)| == |TableValues|
    ensures Marks(BoolCommon(e))[i] == Expected(e)[i]
  {
  }

  /** The cells of the function row and of its negation. */
  lemma {:induction false} FunctionMarkAt(e: Entry, i: nat)
    requires i < |TableValues| && (e == IsFunctionEntry || e == IsNotFunctionEntry)
    ensures |Expected(e)| == |TableValues|
    ensures Marks(BoolCommon(e))[i] == Expected(e)[i]
  {
  }

  /** The cells of the object row and of its negation. */
  lemma {:induction false} ObjectMarkAt(e: Entry, i: nat)
    requires i < |TableValues| && (e == IsObjectEntry || e == IsNotObjectEntry)
    ensures |Expected(e)| == |TableValues|
    ensures Marks(BoolCommon(e))[i] == Expected(e)[i]
  {
  }

  /** The cells of the array row and of its negation. */
  lemma {:induction false} ArrayMarkAt(e: Entry, i: nat)
    requires i < |TableValues| && (e == IsArrayEntry || e == IsNotArrayEntry)
    ensures |Expected(e)| == |TableValues|
    ensures Marks(BoolCommon(e))[i] == Expected(e)[i]
  {
  }
}
