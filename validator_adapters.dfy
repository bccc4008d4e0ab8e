/**
 * The stream adapters of src/Validator.ts. A stream of input values is a
 * finite sequence, and each adapter maps it element by element to a
 * sequence of validation results.
 */
module ValidatorAdapters {
  import opened Streams
  import opened JsValues
  import opened ValidationResults
  import Internal
  import IV = InternalValidators

  /** The error text of `ofBoolValidator`: a string, or a thunk asked for it at each failure. */
  datatype ErrorMessage = Literal(text: string) | Thunk(get: () -> string)

  function ErrorText(m: ErrorMessage): string
  {
    match m
    case Literal(text) => text
    case Thunk(get) => get()
  }

  /** `ofSingleValidator(f)` applied to a stream of values. */
  function OfSingleValidator(f: SingleValidator, values: seq<JsValue>): (out: seq<ValidationResult>)
    ensures |out| == |values|
    ensures forall i | 0 <= i < |values| :: out[i] == f(values[i])
  {
    Map(f, values)
  }

  /** `ofBoolValidator(errorMessage)(p)` applied to a stream of values. */
  function OfBoolValidator(errorMessage: ErrorMessage, p: BoolValidator, values: seq<JsValue>)
    : (out: seq<ValidationResult>)
    ensures |out| == |values|
    ensures forall i | 0 <= i < |values| ::
      (out[i] == SuccessResult() <==> p(values[i])) &&
      (!p(values[i]) ==> out[i] == ErrorResult(ErrorText(errorMessage)))
  {
    Map((v: JsValue) => if p(v) then SuccessResult() else ErrorResult(ErrorText(errorMessage)), values)
  }

  /** `ofMessageValidator(m)` applied to a stream of values; an empty text (`isEmpty`) is a success. */
  function OfMessageValidator(m: MessageValidator, values: seq<JsValue>): (out: seq<ValidationResult>)
    ensures |out| == |values|
    ensures forall i | 0 <= i < |values| ::
      (out[i] == SuccessResult() <==> m(values[i]) == "") &&
      (m(values[i]) != "" ==> out[i] == ErrorResult(m(values[i])))
  {
    Map((v: JsValue) => var text := m(v); if IV.IsEmpty(Str(text)) then SuccessResult() else ErrorResult(text), values)
  }

  /** `ofMessageValidator(m)` is `ofSingleValidator(m2s(m))`. */
  lemma {:induction false} OfMessageIsM2s(m: MessageValidator, values: seq<JsValue>)
    ensures OfMessageValidator(m, values) == OfSingleValidator(Internal.M2s(m), values)
  {
    var a, b := OfMessageValidator(m, values), OfSingleValidator(Internal.M2s(m), values);
    assert forall i | 0 <= i < |values| :: a[i] == b[i];
  }

  /**
   * With a non-empty literal text, `ofBoolValidator(text)(p)` is
   * `ofSingleValidator(b2s(text, p))`; with the empty literal the failures
   * carry "" where `b2s` would say "Error".
   */
  lemma {:induction false} OfBoolIsB2s(text: string, p: BoolValidator, values: seq<JsValue>)
    ensures text != "" ==> OfBoolValidator(Literal(text), p, values) == OfSingleValidator(Internal.B2s(text, p), values)
    ensures text == "" ==> forall i | 0 <= i < |values| && !p(values[i]) ::
      OfBoolValidator(Literal(text), p, values)[i] == ErrorResult("") != Internal.B2s(text, p)(values[i])
  {
    var a, b := OfBoolValidator(Literal(text), p, values), OfSingleValidator(Internal.B2s(text, p), values);
    if text != "" {
      assert forall i | 0 <= i < |values| :: a[i] == b[i];
    }
  }

  /** No adapter adds, drops or reorders emissions: the output of a concatenation is the concatenation. */
  lemma {:induction false} AdaptersSplit(f: SingleValidator, errorMessage: ErrorMessage, p: BoolValidator,
                                         m: MessageValidator, xs: seq<JsValue>, ys: seq<JsValue>)
    ensures OfSingleValidator(f, xs + ys) == OfSingleValidator(f, xs) + OfSingleValidator(f, ys)
    ensures OfBoolValidator(errorMessage, p, xs + ys) == OfBoolValidator(errorMessage, p, xs) + OfBoolValidator(errorMessage, p, ys)
    ensures OfMessageValidator(m, xs + ys) == OfMessageValidator(m, xs) + OfMessageValidator(m, ys)
  {
    MapConcat(f, xs, ys);
    MapConcat((v: JsValue) => if p(v) then SuccessResult() else ErrorResult(ErrorText(errorMessage)), xs, ys);
    MapConcat((v: JsValue) => var text := m(v); if IV.IsEmpty(Str(text)) then SuccessResult() else ErrorResult(text), xs, ys);
  }
}
