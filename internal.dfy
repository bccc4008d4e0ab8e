/**
 * Function composition, predicate combinators and the bool/message/result
 * adapters of src/internal.ts.
 */
module Internal {
  import opened JsValues
  import opened ValidationResults

  // ---------------------------------------------------------------- composition

  /** `compose(f, g)`: apply g, then f. */
  function Compose<X, Y, Z>(f: Y -> Z, g: X -> Y): X -> Z
  {
    x => f(g(x))
  }

  /** `compose3(f, g, h)`, built as `compose(compose(f, g), h)`. */
  function Compose3<X(!new), Y, Z, U>(f: Z -> U, g: Y -> Z, h: X -> Y): (c: X -> U)
    ensures forall x :: c(x) == f(g(h(x)))
  {
    Compose(Compose(f, g), h)
  }

  /** `compose4(f, g, h, k)`, built as `compose(compose(f, g), compose(h, k))`. */
  function Compose4<X(!new), Y, Z, U, V>(f: U -> V, g: Z -> U, h: Y -> Z, k: X -> Y): (c: X -> V)
    ensures forall x :: c(x) == f(g(h(k(x))))
  {
    Compose(Compose(f, g), Compose(h, k))
  }

  /** Composition is associative, pointwise. */
  lemma {:induction false} ComposeAssociative<X, Y, Z, U>(f: Z -> U, g: Y -> Z, h: X -> Y, x: X)
    ensures Compose(Compose(f, g), h)(x) == Compose(f, Compose(g, h))(x) == f(g(h(x)))
  {
  }

  // ---------------------------------------------------------------- combinators

  function NotFunc(b: bool): bool { !b }

  /** `isNot(v)`, built as `compose(notFunc, v)`. */
  function IsNot(v: BoolValidator): (r: BoolValidator)
    ensures forall x :: r(x) == !v(x)
  {
    Compose(NotFunc, v)
  }

  lemma {:induction false} IsNotInvolution(v: BoolValidator, x: JsValue)
    ensures IsNot(IsNot(v))(x) == v(x)
  {
  }

  /** `validators.reduce((a, val) => a || val(x), acc)`. */
  function OrFold(acc: bool, vs: seq<BoolValidator>, x: JsValue): bool
    decreases |vs|
  {
    if vs == [] then acc else OrFold(acc || vs[0](x), vs[1..], x)
  }

  /** `validators.reduce((a, val) => a && val(x), acc)`. */
  function AndFold(acc: bool, vs: seq<BoolValidator>, x: JsValue): bool
    decreases |vs|
  {
    if vs == [] then acc else AndFold(acc && vs[0](x), vs[1..], x)
  }

  lemma {:induction false} OrFoldAny(acc: bool, vs: seq<BoolValidator>, x: JsValue)
    ensures OrFold(acc, vs, x) <==> acc || exists i | 0 <= i < |vs| :: vs[i](x)
    decreases |vs|
  {
    if vs != [] {
      OrFoldAny(acc || vs[0](x), vs[1..], x);
      assert forall i | 1 <= i < |vs| :: vs[i] == vs[1..][i - 1];
    }
  }

  lemma {:induction false} AndFoldAll(acc: bool, vs: seq<BoolValidator>, x: JsValue)
    ensures AndFold(acc, vs, x) <==> acc && forall i | 0 <= i < |vs| :: vs[i](x)
    decreases |vs|
  {
    if vs != [] {
      AndFoldAll(acc && vs[0](x), vs[1..], x);
      assert forall i | 1 <= i < |vs| :: vs[i] == vs[1..][i - 1];
    }
  }

  /** `isEither(...vs)`: some predicate holds; false when there are none. */
  function IsEither(vs: seq<BoolValidator>): (r: BoolValidator)
    ensures forall x :: r(x) <==> exists i | 0 <= i < |vs| :: vs[i](x)
  {
    forall x ensures OrFold(false, vs, x) <==> exists i | 0 <= i < |vs| :: vs[i](x) {
      OrFoldAny(false, vs, x);
    }
    x => OrFold(false, vs, x)
  }

  /** `isAll(...vs)`: every predicate holds; true when there are none. */
  function IsAll(vs: seq<BoolValidator>): (r: BoolValidator)
    ensures forall x :: r(x) <==> forall i | 0 <= i < |vs| :: vs[i](x)
  {
    forall x ensures AndFold(true, vs, x) <==> forall i | 0 <= i < |vs| :: vs[i](x) {
      AndFoldAll(true, vs, x);
    }
    x => AndFold(true, vs, x)
  }

  /** The two-predicate forms every caller in the library uses. */
  lemma {:induction false} IsEitherTwo(a: BoolValidator, b: BoolValidator, x: JsValue)
    ensures IsEither([a, b])(x) == (a(x) || b(x))
  {
    var vs := [a, b];
    if a(x) || b(x) {
      assert vs[0](x) || vs[1](x);
    }
  }

  lemma {:induction false} IsAllTwo(a: BoolValidator, b: BoolValidator, x: JsValue)
    ensures IsAll([a, b])(x) == (a(x) && b(x))
  {
    var vs := [a, b];
    if !(a(x) && b(x)) {
      assert !vs[0](x) || !vs[1](x);
    }
  }

  // ---------------------------------------------------------------- adapters

  /** `msg || "Error"`: an empty message falls back to the literal "Error". */
  function OrError(msg: string): (r: string)
    ensures r != ""
    ensures msg != "" ==> r == msg
  {
    if msg == "" then "Error" else msg
  }

  /** `b2m(msg, v)`: "" when v holds, otherwise the (never empty) failure text. */
  function B2m(msg: string, v: BoolValidator): (m: MessageValidator)
    ensures forall x :: m(x) == "" <==> v(x)
    ensures forall x :: !v(x) ==> m(x) == OrError(msg)
  {
    x => if v(x) then "" else OrError(msg)
  }

  /** `b2s(msg, v)`: a success when v holds, otherwise an error carrying the failure text. */
  function B2s(msg: string, v: BoolValidator): (s: SingleValidator)
    ensures forall x :: s(x) == SuccessResult() <==> v(x)
    ensures forall x :: !v(x) ==> s(x) == ErrorResult(OrError(msg))
  {
    x => if v(x) then SuccessResult() else ErrorResult(OrError(msg))
  }

  /** `m2s(mv)`: a success exactly when the text is "", otherwise an error carrying that text. */
  function M2s(mv: MessageValidator): (s: SingleValidator)
    ensures forall x :: s(x) == SuccessResult() <==> mv(x) == ""
    ensures forall x :: s(x).Leaf? && s(x).message == mv(x) && s(x).isError == (mv(x) != "")
  {
    x => var msg := mv(x); if msg == "" then SuccessResult() else ErrorResult(msg)
  }

  /** Going through the message adapter gives the same results as the direct one. */
  lemma {:induction false} M2sOfB2m(msg: string, v: BoolValidator, x: JsValue)
    ensures M2s(B2m(msg, v))(x) == B2s(msg, v)(x)
  {
  }
}
