/**
 * The validator combinators of src/ValidatorBuilder.ts. A validator, as the
 * builder uses it, maps an input value to the finite sequence of results it
 * emits. `collect` and `compose` with several children return a
 * combine-latest over the children, whose emissions depend on the order in
 * which the children's results arrive: that order is an explicit trace.
 */
module ValidatorBuilder {
  import opened Wrappers
  import opened Streams
  import opened JsValues
  import opened ValidationResults
  import CL = CombineLatest

  type Validator = JsValue -> seq<ValidationResult>

  /** The result `inconclusiveResult(msg?)` builds; its definition is not part of this model. */
  type InconclusiveResult = Option<string> -> ValidationResult

  /** The aggregation `combineResults` that `collect` applies; its definition is not part of this model. */
  type Aggregate = seq<ValidationResult> -> ValidationResult

  // ---------------------------------------------------------------- atomic validators

  /** `success`: one non-error result with an empty message, whatever the value. */
  function Success(): (v: Validator)
    ensures forall x :: |v(x)| == 1 && v(x)[0].Leaf? && v(x)[0].kind == ValidationResults.Success
    ensures forall x :: !v(x)[0].isError && v(x)[0].message == ""
  {
    _ => [SuccessResult()]
  }

  /** `message(msg)`: one non-error message result carrying msg, whatever the value. */
  function Message(msg: string): (v: Validator)
    ensures forall x :: |v(x)| == 1 && v(x)[0].Leaf? && v(x)[0].kind == ValidationResults.Message
    ensures forall x :: !v(x)[0].isError && v(x)[0].message == msg
  {
    _ => [MessageResult(msg)]
  }

  /** `error(msg)`: one error result carrying msg, whatever the value. */
  function Error(msg: string): (v: Validator)
    ensures forall x :: |v(x)| == 1 && v(x)[0].Leaf? && v(x)[0].kind == ValidationResults.Error
    ensures forall x :: v(x)[0].isError && v(x)[0].message == msg
  {
    _ => [ErrorResult(msg)]
  }

  /** `inconclusive(msg?)`: one inconclusive result, whatever the value. */
  function Inconclusive(inconclusiveResult: InconclusiveResult, msg: Option<string>): (v: Validator)
    ensures forall x :: v(x) == [inconclusiveResult(msg)]
    ensures forall x, y :: v(x) == v(y) && |v(x)| == 1
  {
    _ => [inconclusiveResult(msg)]
  }

  /** `startWith(r)(validator)`: r first, then exactly what the validator emits. */
  function StartWith(r: ValidationResult, validator: Validator): (v: Validator)
    ensures forall x :: |v(x)| == |validator(x)| + 1 && v(x)[0] == r && v(x)[1..] == validator(x)
  {
    x => [r] + validator(x)
  }

  /** `startInconclusive`: `startWith(inconclusiveResult())`. */
  function StartInconclusive(inconclusiveResult: InconclusiveResult, validator: Validator): (v: Validator)
    ensures forall x :: |v(x)| == |validator(x)| + 1 && v(x)[0] == inconclusiveResult(None) && v(x)[1..] == validator(x)
  {
    StartWith(inconclusiveResult(None), validator)
  }

  // ---------------------------------------------------------------- collect and compose

  /** What `collect` and `compose` return: a validator as it is, or a combine-latest of children. */
  datatype Combined =
    | Relay(validator: Validator)
    | CombinedLatest(children: seq<Validator>, mapper: seq<ValidationResult> -> ValidationResult)

  /** `collect(...validators)`: success for none, the validator itself for one, else combine-latest. */
  function Collect(validators: seq<Validator>, combineResults: Aggregate): (c: Combined)
    ensures c.Relay? <==> |validators| <= 1
    ensures |validators| == 0 ==> forall x :: c.validator(x) == [SuccessResult()]
    ensures |validators| == 1 ==> c.validator == validators[0]
    ensures c.CombinedLatest? ==> c.children == validators && c.mapper == combineResults
  {
    if |validators| == 0 then Relay(Success())
    else if |validators| == 1 then Relay(validators[0])
    else CombinedLatest(validators, combineResults)
  }

  /** Each key paired with the result in the same position. */
  function Labelled(keys: seq<string>, results: seq<ValidationResult>): (ps: seq<PropertyValidation>)
    requires |keys| == |results|
    ensures |ps| == |keys|
    ensures forall i | 0 <= i < |ps| :: ps[i].property == keys[i] && ps[i].result == results[i]
  {
    seq(|keys|, i requires 0 <= i < |keys| => PropertyValidation(keys[i], results[i]))
  }

  /** The mapper of `compose`: the object result of the keys paired with the latest results. */
  function ObjectMapper(keys: seq<string>): seq<ValidationResult> -> ValidationResult
  {
    results => if |results| == |keys| then ObjectResult(Labelled(keys, results)) else SuccessResult()
  }

  /**
   * Given one result per key, the mapper builds an object result that pairs
   * every key, in order, with the result in its position, and that is an
   * error exactly when one of the results is.
   */
  lemma {:induction false} ObjectMapperReadsBack(keys: seq<string>, results: seq<ValidationResult>)
    requires |results| == |keys|
    ensures ObjectMapper(keys)(results).Object?
    ensures |ObjectMapper(keys)(results).properties| == |keys|
    ensures forall i | 0 <= i < |keys| ::
      ObjectMapper(keys)(results).properties[i] == PropertyValidation(keys[i], results[i])
    ensures ObjectMapper(keys)(results).isError <==> exists i | 0 <= i < |results| :: results[i].isError
  {
    var ps := Labelled(keys, results);
    assert ObjectMapper(keys)(results) == ObjectResult(ps);
    assert forall i | 0 <= i < |ps| :: ps[i].result == results[i];
  }

  function Key(p: (string, Validator)): string { p.0 }

  function ValidatorOf(p: (string, Validator)): Validator { p.1 }

  /** `compose(properties)`, the properties in key order: success for none, else combine-latest. */
  function Compose(properties: seq<(string, Validator)>): (c: Combined)
    ensures c.Relay? <==> properties == []
    ensures c.Relay? ==> forall x :: c.validator(x) == [SuccessResult()]
    ensures c.CombinedLatest? ==>
      |c.children| == |properties| && (forall i | 0 <= i < |properties| :: c.children[i] == properties[i].1)
    ensures c.CombinedLatest? ==> c.mapper == ObjectMapper(Map(Key, properties))
  {
    if |properties| == 0 then Relay(Success())
    else CombinedLatest(Map(ValidatorOf, properties), ObjectMapper(Map(Key, properties)))
  }

  // ---------------------------------------------------------------- running a combination

  /**
   * The trace is a possible arrival order for `c` on `value`: every arrival
   * comes from a child, and each child's arrivals are exactly what that child
   * emits for the value, in order.
   */
  predicate Feeds(c: Combined, value: JsValue, trace: seq<CL.Arrival>)
  {
    match c
    case Relay(_) => true
    case CombinedLatest(children, _) =>
      CL.FromChildren(|children|, trace) &&
      forall i | 0 <= i < |children| :: CL.Project(trace, i) == children[i](value)
  }

  /** What `c` emits for `value` when its children's results arrive in the order of `trace`. */
  function Emissions(c: Combined, value: JsValue, trace: seq<CL.Arrival>): seq<ValidationResult>
    requires Feeds(c, value, trace)
  {
    match c
    case Relay(v) => v(value)
    case CombinedLatest(children, mapper) => CL.Emitted(|children|, mapper, trace)
  }

  /** Runs `c` on `value` for the arrival order `trace`. */
  method Run(c: Combined, value: JsValue, trace: seq<CL.Arrival>) returns (out: seq<ValidationResult>)
    requires Feeds(c, value, trace)
    ensures out == Emissions(c, value, trace)
  {
    match c
    case Relay(v) =>
      out := v(value);
    case CombinedLatest(children, mapper) =>
      out := CL.Run(|children|, mapper, trace);
  }

  // ---------------------------------------------------------------- properties

  /** `collect()` emits one success; `collect(v)` emits what v emits; more children combine their latest results. */
  lemma {:induction false} CollectEmissions(validators: seq<Validator>, combineResults: Aggregate, value: JsValue,
                         trace: seq<CL.Arrival>)
    requires Feeds(Collect(validators, combineResults), value, trace)
    ensures |validators| == 0 ==> Emissions(Collect(validators, combineResults), value, trace) == [SuccessResult()]
    ensures |validators| == 1 ==> Emissions(Collect(validators, combineResults), value, trace) == validators[0](value)
    ensures |validators| >= 2 ==>
      Emissions(Collect(validators, combineResults), value, trace) == CL.Emitted(|validators|, combineResults, trace)
  {
  }

  /** A child of a several-child `collect` that emits nothing keeps the whole collection silent. */
  lemma {:induction false} CollectSilencedBySilentChild(validators: seq<Validator>, combineResults: Aggregate, value: JsValue,
                                     trace: seq<CL.Arrival>, i: nat)
    requires |validators| >= 2 && i < |validators| && validators[i](value) == []
    requires Feeds(Collect(validators, combineResults), value, trace)
    ensures Emissions(Collect(validators, combineResults), value, trace) == []
  {
    CL.NeverArrivedSilent(|validators|, combineResults, trace, i);
  }

  /** `compose({})` emits exactly one success. */
  lemma {:induction false} ComposeEmpty(value: JsValue, trace: seq<CL.Arrival>)
    ensures Feeds(Compose([]), value, trace)
    ensures Emissions(Compose([]), value, trace) == [SuccessResult()]
  {
  }

  /** `out` is the object result of `keys`, in order, each paired with the value of its slot. */
  predicate LabelsLatest(out: ValidationResult, keys: seq<string>, latest: seq<Option<ValidationResult>>)
  {
    out.Object? && |out.properties| == |keys| == |latest| &&
    forall i | 0 <= i < |keys| :: out.properties[i].property == keys[i] && Some(out.properties[i].result) == latest[i]
  }

  lemma {:induction false} ObjectMapperLabels(keys: seq<string>, latest: seq<Option<ValidationResult>>)
    requires CL.Complete(latest) && |latest| == |keys|
    ensures LabelsLatest(ObjectMapper(keys)(CL.Values(latest)), keys, latest)
  {
    var ps := Labelled(keys, CL.Values(latest));
    assert ObjectMapper(keys)(CL.Values(latest)) == ObjectResult(ps);
  }

  /**
   * Once arrival k0 has given every property a result, each arrival emits
   * the object result of all keys, in key order, each paired with its
   * child's latest result.
   */
  lemma {:induction false} ComposeEmitsLatestObjects(properties: seq<(string, Validator)>, value: JsValue,
                                  trace: seq<CL.Arrival>, k0: nat)
    requires |properties| > 0 && Feeds(Compose(properties), value, trace) && k0 < |trace|
    requires CL.Complete(CL.Latest(|properties|, trace[..k0 + 1]))
    requires !CL.Complete(CL.Latest(|properties|, trace[..k0]))
    ensures |Emissions(Compose(properties), value, trace)| == |trace| - k0
    ensures forall m | k0 < m <= |trace| ::
      LabelsLatest(Emissions(Compose(properties), value, trace)[m - k0 - 1], Map(Key, properties),
                   CL.Latest(|properties|, trace[..m]))
  {
    var n, keys := |properties|, Map(Key, properties);
    assert Compose(properties) == CombinedLatest(Map(ValidatorOf, properties), ObjectMapper(keys));
    ObjectEmissions(keys, trace, k0);
  }

  /** The emissions of the object mapper over `keys` once every slot is filled, in key order. */
  lemma {:induction false} ObjectEmissions(keys: seq<string>, trace: seq<CL.Arrival>, k0: nat)
    requires CL.FromChildren(|keys|, trace) && k0 < |trace|
    requires CL.Complete(CL.Latest(|keys|, trace[..k0 + 1]))
    requires !CL.Complete(CL.Latest(|keys|, trace[..k0]))
    ensures |CL.Emitted(|keys|, ObjectMapper(keys), trace)| == |trace| - k0
    ensures forall m | k0 < m <= |trace| ::
      LabelsLatest(CL.Emitted(|keys|, ObjectMapper(keys), trace)[m - k0 - 1], keys, CL.Latest(|keys|, trace[..m]))
  {
    var n, mapper := |keys|, ObjectMapper(keys);
    CL.EmittedAt(n, mapper, trace, k0, |trace|);
    forall m | k0 < m <= |trace|
      ensures LabelsLatest(CL.Emitted(n, mapper, trace)[m - k0 - 1], keys, CL.Latest(n, trace[..m]))
    {
      ObjectEmissionAt(keys, trace, k0, m);
    }
  }

  /** The emission of arrival m - 1, for one m, as ObjectEmissions states it for all. */
  lemma {:induction false} ObjectEmissionAt(keys: seq<string>, trace: seq<CL.Arrival>, k0: nat, m: nat)
    requires CL.FromChildren(|keys|, trace) && k0 < m <= |trace|
    requires CL.Complete(CL.Latest(|keys|, trace[..k0 + 1]))
    requires !CL.Complete(CL.Latest(|keys|, trace[..k0]))
    ensures |CL.Emitted(|keys|, ObjectMapper(keys), trace)| == |trace| - k0
    ensures LabelsLatest(CL.Emitted(|keys|, ObjectMapper(keys), trace)[m - k0 - 1], keys, CL.Latest(|keys|, trace[..m]))
  {
    var n, mapper := |keys|, ObjectMapper(keys);
    var latest := CL.Latest(n, trace[..m]);
    CL.EmittedAt(n, mapper, trace, k0, m);
    ObjectMapperLabels(keys, latest);
  }

  /** `compose` of one property has no shortcut: each emission of its validator becomes an object result. */
  lemma {:induction false} ComposeSingle(key: string, validator: Validator, value: JsValue, trace: seq<CL.Arrival>)
    requires Feeds(Compose([(key, validator)]), value, trace)
    ensures Emissions(Compose([(key, validator)]), value, trace) ==
      Map((r: ValidationResult) => ObjectResult([PropertyValidation(key, r)]), validator(value))
  {
    var mapper := ObjectMapper([key]);
    assert Map(ValidatorOf, [(key, validator)]) == [validator];
    assert Map(Key, [(key, validator)]) == [key];
    assert Compose([(key, validator)]) == CombinedLatest([validator], mapper);
    assert CL.Project(trace, 0) == validator(value);
    CL.EmittedSingle(mapper, trace);
    forall r: ValidationResult
      ensures mapper([r]) == ObjectResult([PropertyValidation(key, r)])
    {
      assert Labelled([key], [r]) == [PropertyValidation(key, r)];
    }
    MapSame((r: ValidationResult) => mapper([r]), (r: ValidationResult) => ObjectResult([PropertyValidation(key, r)]),
            validator(value));
  }

  /**
   * `collect` of two validators that each emit twice, their results arriving
   * alternately: from the second arrival on, every arrival emits the
   * aggregate of both children's latest results.
   */
  lemma {:induction false} CollectTwoExample(v1: Validator, v2: Validator, combineResults: Aggregate, value: JsValue,
                                             a0: ValidationResult, a1: ValidationResult,
                                             b0: ValidationResult, b1: ValidationResult)
    requires v1(value) == [a0, a1] && v2(value) == [b0, b1]
    ensures var trace := [CL.Arrival(0, a0), CL.Arrival(1, b0), CL.Arrival(0, a1), CL.Arrival(1, b1)];
      Feeds(Collect([v1, v2], combineResults), value, trace) &&
      Emissions(Collect([v1, v2], combineResults), value, trace) ==
        [combineResults([a0, b0]), combineResults([a1, b0]), combineResults([a1, b1])]
  {
    CL.InterleavedTwo(combineResults, a0, a1, b0, b1);
  }

  /**
   * `compose` of two properties whose validators each emit twice, their
   * results arriving alternately: from the second arrival on, every arrival
   * emits the object result of both keys with their latest results.
   */
  lemma {:induction false} ComposeTwoExample(k1: string, k2: string, v1: Validator, v2: Validator, value: JsValue,
                                             a0: ValidationResult, a1: ValidationResult,
                                             b0: ValidationResult, b1: ValidationResult)
    requires v1(value) == [a0, a1] && v2(value) == [b0, b1]
    ensures Feeds(Compose([(k1, v1), (k2, v2)]), value,
                  [CL.Arrival(0, a0), CL.Arrival(1, b0), CL.Arrival(0, a1), CL.Arrival(1, b1)])
    ensures var trace := [CL.Arrival(0, a0), CL.Arrival(1, b0), CL.Arrival(0, a1), CL.Arrival(1, b1)];
      Emissions(Compose([(k1, v1), (k2, v2)]), value, trace) == [
        ObjectResult([PropertyValidation(k1, a0), PropertyValidation(k2, b0)]),
        ObjectResult([PropertyValidation(k1, a1), PropertyValidation(k2, b0)]),
        ObjectResult([PropertyValidation(k1, a1), PropertyValidation(k2, b1)])]
  {
    ComposeTwoEmits(k1, k2, v1, v2, value, a0, a1, b0, b1);
    ObjectMapperTwo(k1, k2, a0, b0);
    ObjectMapperTwo(k1, k2, a1, b0);
    ObjectMapperTwo(k1, k2, a1, b1);
  }

  /** The emissions of the two-property `compose` above, before the mapper is applied. */
  lemma {:induction false} ComposeTwoEmits(k1: string, k2: string, v1: Validator, v2: Validator, value: JsValue,
                                           a0: ValidationResult, a1: ValidationResult,
                                           b0: ValidationResult, b1: ValidationResult)
    requires v1(value) == [a0, a1] && v2(value) == [b0, b1]
    ensures var trace := [CL.Arrival(0, a0), CL.Arrival(1, b0), CL.Arrival(0, a1), CL.Arrival(1, b1)];
      var c, mapper := Compose([(k1, v1), (k2, v2)]), ObjectMapper([k1, k2]);
      Feeds(c, value, trace) && Emissions(c, value, trace) == [mapper([a0, b0]), mapper([a1, b0]), mapper([a1, b1])]
  {
    ComposeTwo(k1, k2, v1, v2);
    CL.InterleavedTwo(ObjectMapper([k1, k2]), a0, a1, b0, b1);
  }

  /** `compose` of two properties combines their validators under the mapper of their keys. */
  lemma {:induction false} ComposeTwo(k1: string, k2: string, v1: Validator, v2: Validator)
    ensures Compose([(k1, v1), (k2, v2)]) == CombinedLatest([v1, v2], ObjectMapper([k1, k2]))
  {
    assert Map(ValidatorOf, [(k1, v1), (k2, v2)]) == [v1, v2];
    assert Map(Key, [(k1, v1), (k2, v2)]) == [k1, k2];
  }

  /** The mapper of two keys labels a pair of results. */
  lemma {:induction false} ObjectMapperTwo(k1: string, k2: string, x: ValidationResult, y: ValidationResult)
    ensures ObjectMapper([k1, k2])([x, y]) == ObjectResult([PropertyValidation(k1, x), PropertyValidation(k2, y)])
  {
    assert Labelled([k1, k2], [x, y]) == [PropertyValidation(k1, x), PropertyValidation(k2, y)];
  }

  /** Two pointwise-equal functions map a sequence alike. */
  lemma {:induction false} MapSame<A, B>(f: A -> B, g: A -> B, s: seq<A>)
    requires forall a :: f(a) == g(a)
    ensures Map(f, s) == Map(g, s)
  {
    assert forall i | 0 <= i < |s| :: Map(f, s)[i] == Map(g, s)[i];
  }
}
