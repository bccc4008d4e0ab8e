# rxvalidation in Dafny

A model of the core of rxvalidation, a TypeScript library for composing reactive
validators. A validator maps an input value to a stream of `ValidationResult`s. A
result is one of three kinds:

- a leaf: success, message, warning or error;
- a collection of results;
- an object result, which holds one result per named property.

Each result carries an error flag and a message. A collection or object result is an
error exactly when one of its children is. Its message is built as follows:

- When some child is an error, only the erroring children are shown; otherwise all are.
- The shown messages are folded from left to right. Before each message, the text so
  far gets a `\r\n` unless it is empty or already ends in `\r\n`.
- So an empty message in the middle leaves no trace, and an empty last message leaves
  a trailing `\r\n`.
- In an object result, each shown line is the property name, then `\r\n` (unless the
  name is empty or already ends in it), then the property's message.
- When every shown line is non-empty and does not end in `\r\n`, the fold is the plain
  join of the lines with one `\r\n` between consecutive ones (`JoinLinesIsJoin`).

The modules follow the source files:

| module | file | source |
|---|---|---|
| `ValidationResults` | `validation_results.dfy` | `src/ValidationResult.ts`: the result records, their constructors, `newLineIfNeeded`, `collectionResult` and `objectResult`. The message reduction is the function `JoinLines`. The invariant between the stored error flag and the children is the predicate `Consistent`. |
| `Internal` | `internal.dfy` | `src/internal.ts`: function composition, `isNot`/`isEither`/`isAll`, and the adapters `b2m`, `b2s` and `m2s`. |
| `InternalValidators` | `internal_validators.dfy` | `src/internalValidators.ts`: the `typeof` predicates and the null, empty and required predicates built from them. |
| `Common` | `common.dfy` | `src/common.ts` lines 18-97: the `bool`, `message` and `sync` tables of type validators. An entry is a value of the datatype `Entry`, and each table is a function of the entry. |
| `ValidatorAdapters` | `validator_adapters.dfy` | `src/Validator.ts`: `ofSingleValidator`, `ofBoolValidator` and `ofMessageValidator`. Each maps a finite stream of inputs element by element. |
| `CombineLatest` | `combine_latest.dfy` | The combine-latest operator that `collect` and `compose` rely on. |
| `ValidatorBuilder` | `validator_builder.dfy` | `src/ValidatorBuilder.ts`: `success`, `message`, `error`, `inconclusive`, `startWith`, `startInconclusive`, `collect` and `compose`. |

Supporting modules:

- `JsValues` models JavaScript values and `typeof`.
- `Streams` holds sequence `Map`.
- `Wrappers` holds `Option`.

How combine-latest is modelled:

- Asynchronous timing becomes an *arrival trace*: the order in which results from the children arrive.
- The operator keeps one "latest" slot per child. It emits the mapper of all the slots on every arrival once each slot is filled.
- The specification functions are `Latest` and `Emitted`.
- The imperative version is the class `LatestSlots`, which holds two arrays: the slots and their filled flags. The method `Run` feeds it the trace in a loop, and it is proved equal to `Emitted`.

Where the test suite and the code disagree, the model follows the code (see "## Left out").

## Model

| member | source | states |
|---|---|---|
| ValidationResults.LeafResults | src/ValidationResult.ts:32-54 | success, message, warning and error results are consistent leaves; only an error result has the error flag set; success has the empty message and the others carry the given text |
| ValidationResults.NewLineIfNeeded | src/ValidationResult.ts:56-57 | the text is unchanged exactly when it is empty or already ends in CRLF, otherwise CRLF is appended; the result is empty or ends in CRLF |
| ValidationResults.NewLineIfNeededIdempotent | src/ValidationResult.ts:56-57 | applying newLineIfNeeded twice is the same as applying it once |
| ValidationResults.JoinLinesExtends | src/ValidationResult.ts:62 | the fold only appends: the start text is a prefix of the message it builds |
| ValidationResults.JoinLinesIsJoin | src/ValidationResult.ts:56-62 | over lines that are non-empty and do not end in CRLF, the fold from "" is exactly the lines joined with one CRLF between consecutive ones (the independent definition `JoinWith`) |
| ValidationResults.JoinLinesEmpty | src/ValidationResult.ts:62 | the message reduction yields "" exactly when the start and every line are empty |
| ValidationResults.JoinLinesConcat | src/ValidationResult.ts:62 | reducing a concatenation is reducing the second part from the result of the first |
| ValidationResults.JoinLinesNormalises | src/ValidationResult.ts:62 | for a non-empty list, terminating the start text first changes nothing |
| ValidationResults.JoinLinesSkipsEmpty | src/ValidationResult.ts:62 | an empty first line, followed by more lines, leaves no trace in the message |
| ValidationResults.JoinLinesTrailingEmpty | src/ValidationResult.ts:62 | an empty last line only terminates the message with CRLF |
| ValidationResults.Filter | src/ValidationResult.ts:61 | the kept children are children that satisfy the test, and every child that satisfies it is kept |
| ValidationResults.AnyExists | src/ValidationResult.ts:60 | `some` holds exactly when some element satisfies the test |
| ValidationResults.FilterEmpty | src/ValidationResult.ts:60-61 | the filter is empty exactly when `some` is false |
| ValidationResults.FilterConcat | src/ValidationResult.ts:61 | filtering distributes over concatenation |
| ValidationResults.FilterKeepsAll | src/ValidationResult.ts:61 | when every element passes, the filter is the identity |
| ValidationResults.CollectionResult | src/ValidationResult.ts:59-69 | a collection result keeps its children, and it is an error exactly when some child is an error |
| ValidationResults.CollectionResultConsistent | src/ValidationResult.ts:59-69 | a collection of consistent results is consistent |
| ValidationResults.CollectionEmpty | src/ValidationResult.ts:59-69 | the empty collection is a non-error with message "" |
| ValidationResults.CollectionSingle | src/ValidationResult.ts:59-69 | a one-child collection has that child's error flag and message |
| ValidationResults.CollectionTwo | src/ValidationResult.ts:59-69 | two children of the same error status give their messages joined by one CRLF |
| ValidationResults.CollectionErrorsDecideMessage | src/ValidationResult.ts:60-62 | once some child is an error, only the erroring children decide the message: two lists with the same erroring children give the same message |
| ValidationResults.CollectionIgnoresNonError | src/ValidationResult.ts:60-62 | inserting a non-error child into a collection that has an error does not change the message |
| ValidationResults.CollectionMessageEmpty | src/ValidationResult.ts:60-62 | the message is "" exactly when every shown child has an empty message |
| ValidationResults.CollectionSkipsEmptyMessage | src/ValidationResult.ts:61-62 | without errors, a child with an empty message that is not last contributes nothing |
| ValidationResults.CollectionTrailingEmptyMessage | src/ValidationResult.ts:61-62 | without errors, an empty-message child at the end only terminates the message |
| ValidationResults.CollectionErrorsAround | src/ValidationResult.ts:59-69 | two erroring children around any number of non-error ones give just the two error messages |
| ValidationResults.ObjectResult | src/ValidationResult.ts:71-82 | an object result keeps its properties, and it is an error exactly when some property's result is |
| ValidationResults.ObjectResultConsistent | src/ValidationResult.ts:71-82 | an object of consistent results is consistent |
| ValidationResults.ObjectEmpty | src/ValidationResult.ts:71-82 | the empty object is a non-error with message "" |
| ValidationResults.LabelledLine | src/ValidationResult.ts:75 | a property's contribution is its name, then CRLF, then its result's message |
| ValidationResults.ObjectSingle | src/ValidationResult.ts:71-82 | one property gives its name, CRLF and its message, with the result's error flag |
| ValidationResults.ObjectTwo | src/ValidationResult.ts:71-82 | two properties of the same error status, written out; an empty first message adds no blank line |
| ValidationResults.ObjectNoErrors | src/ValidationResult.ts:72-75 | without errors, every property contributes, in order |
| ValidationResults.ObjectErrorsDecideMessage | src/ValidationResult.ts:72-75 | once some property is an error, only the erroring properties decide the message |
| ValidationResults.ObjectIgnoresNonError | src/ValidationResult.ts:72-75 | inserting a non-error property into an object that has an error does not change the message |
| ValidationResults.CollectionMessageIsJoin | src/ValidationResult.ts:59-62 | when every shown child (the erroring ones if any child is an error, else all) has a non-empty message not ending in CRLF, the collection's message is those messages joined by CRLF |
| ValidationResults.ObjectMessageIsJoin | src/ValidationResult.ts:71-75 | when every shown property has a non-empty name and message, neither ending in CRLF, the object's message is the shown properties' "name CRLF message" texts joined by CRLF |
| ValidationResults.CollectionMixExample | src/ValidationResult.spec.ts:181-201 | success, message m1 and message m2 give "m1\r\nm2" |
| ValidationResults.CollectionErrorMixExample | src/ValidationResult.ts:59-69 | an error, a success, two messages and an error give only the two error messages (see "## Left out" for the test that expects more) |
| ValidationResults.ObjectSuccessExample | src/ValidationResult.spec.ts:259-275 | one successful property gives "prop\r\n" |
| ValidationResults.ObjectMixExample | src/ValidationResult.spec.ts:303-323 | the three-property mix without errors gives "prop2\r\nprop3\r\nmessage #1\r\nprop4\r\nwarning #2" |
| ValidationResults.ObjectErrorMixExample | src/ValidationResult.ts:71-82 | the five-property mix with errors at both ends gives only the two erroring properties' lines |
| JsValues.TypeOf | src/internalValidators.ts:14-21 | `typeof` is "undefined" only on undefined, and "object" exactly on null, plain objects and arrays |
| Internal.Compose3 | src/internal.ts:13-17 | compose3(f, g, h) applies h, then g, then f |
| Internal.Compose4 | src/internal.ts:19-24 | compose4(f, g, h, k) applies k, h, g, then f |
| Internal.ComposeAssociative | src/internal.ts:8-17 | compose(f, g) applies g, then f; composing compose(f, g) with h equals composing f with compose(g, h), and both apply h, g, then f |
| Internal.IsNot | src/internal.ts:26-30 | isNot(v) is the negation of v on every value |
| Internal.IsNotInvolution | src/internal.ts:26-30 | isNot twice is the original test |
| Internal.OrFoldAny | src/internal.ts:34 | the `\|\|` reduction holds exactly when the start value or some validator holds |
| Internal.AndFoldAll | src/internal.ts:38 | the `&&` reduction holds exactly when the start value and every validator hold |
| Internal.IsEither | src/internal.ts:31-34 | isEither holds exactly when some validator holds; with none it is false |
| Internal.IsAll | src/internal.ts:35-38 | isAll holds exactly when every validator holds; with none it is true |
| Internal.IsEitherTwo | src/internal.ts:31-34 | isEither of two is their disjunction |
| Internal.IsAllTwo | src/internal.ts:35-38 | isAll of two is their conjunction |
| Internal.OrError | src/internal.ts:43 | `msg \|\| "Error"` is never empty and keeps a non-empty message |
| Internal.B2m | src/internal.ts:40-43 | the message is "" exactly when the test holds; otherwise it is the message, or "Error" when the message is empty |
| Internal.B2s | src/internal.ts:45-48 | success exactly when the test holds; otherwise an error with the message, or "Error" when the message is empty |
| Internal.M2s | src/internal.ts:50-56 | success exactly when the message is ""; otherwise an error carrying that message |
| Internal.M2sOfB2m | src/internal.ts:40-56 | m2s(b2m(msg, v)) and b2s(msg, v) agree on every value |
| InternalValidators.IsNot | src/internalValidators.ts:3-4 | the result is the negation of the test on every value |
| InternalValidators.IsNotAgrees | src/internalValidators.ts:3-4 | this isNot agrees with the composed one of internal.ts, and negating twice restores the test |
| InternalValidators.IsUndefined | src/internalValidators.ts:14 | true exactly on undefined |
| InternalValidators.IsNull | src/internalValidators.ts:15 | true exactly on null; a value it accepts is an object for `typeof`, yet not an array and not undefined |
| InternalValidators.IsBoolean | src/internalValidators.ts:16 | true exactly on booleans |
| InternalValidators.IsNumber | src/internalValidators.ts:17 | true exactly on numbers, NaN and the infinities included |
| InternalValidators.IsSymbol | src/internalValidators.ts:18 | true exactly on symbols |
| InternalValidators.IsString | src/internalValidators.ts:19 | true exactly on strings |
| InternalValidators.IsFunction | src/internalValidators.ts:20 | true exactly on functions |
| InternalValidators.IsObject | src/internalValidators.ts:21 | true exactly on null, plain objects and arrays (not on functions) |
| InternalValidators.IsArray | src/internalValidators.ts:22 | every array is an object for `typeof` |
| InternalValidators.TypeTestsPartition | src/internalValidators.ts:14-21 | every value has one of the `typeof` tags; a string has no other tag, and an object is neither a function nor undefined |
| InternalValidators.IsNullOrUndefined | src/internalValidators.ts:24 | true exactly on null and undefined |
| InternalValidators.IsDefined | src/internalValidators.ts:25 | true exactly on values other than null and undefined |
| InternalValidators.IsEmptyString | src/internalValidators.ts:28 | true exactly on values that pass the string test and have length zero; strict equality accepts no other value |
| InternalValidators.IsEmpty | src/internalValidators.ts:29 | true exactly on the empty string |
| InternalValidators.IsNonEmpty | src/internalValidators.ts:30 | true exactly on non-empty strings |
| InternalValidators.IsRequired | src/internalValidators.ts:33 | true on null, on undefined, and on non-empty strings, and on nothing else |
| InternalValidators.EmptyNonEmptyExclusive | src/internalValidators.ts:29-30 | on a string exactly one of isEmpty and isNonEmpty holds; on anything else neither does |
| InternalValidators.RequiredWhenDefined | src/internalValidators.ts:25-33 | a defined value is required exactly when it is a non-empty string; "" is not required |
| InternalValidators.TestValues | src/internalValidators.spec.ts:45-84 | isNullOrUndefined, isDefined and isEmpty on the values of the test suite |
| Common.IsNotNull | src/common.ts:20 | the negation of isNull |
| Common.IsDefined | src/common.ts:22 | true exactly on values other than undefined, so null counts as defined |
| Common.IsNothing | src/common.ts:23 | true exactly on null and undefined |
| Common.IsSomething | src/common.ts:24 | true exactly on values other than null and undefined |
| Common.Text | src/common.ts:51-70 | every entry's failure text is non-empty |
| Common.BoolCommon | src/common.ts:18-47 | each of the twenty predicates accepts exactly the values `Accepts` names for its entry, a description by value shape that does not use `typeof`: null, not null, undefined, not undefined, null or undefined, neither, booleans, numbers, symbols, strings, functions, null or plain objects or arrays, arrays, and the complement of each |
| Common.MessageCommon | src/common.ts:49-72 | each message validator gives "" exactly when its bool validator holds, and otherwise its entry's text |
| Common.SyncCommon | src/common.ts:74-97 | each sync validator gives success when its bool validator holds, and otherwise an error with its entry's text |
| Common.OppositesNegate | src/common.ts:35-46 | each isX / isNotX pair are opposites of each other, and exactly one of them holds on every value |
| Common.NullishOppositesNegate | src/common.ts:36-38 | the same, for the null, undefined and nothing pairs |
| Common.PrimitiveOppositesNegate | src/common.ts:39-42 | the same, for the boolean, number, symbol and string pairs |
| Common.FunctionOppositesNegate | src/common.ts:43 | the same, for the function pair |
| Common.ObjectOppositesNegate | src/common.ts:44-45 | the same, for the object and array pairs |
| Common.NothingAndDefined | src/common.ts:21-24 | isNothing is null or undefined, and isSomething is its negation; this table's isDefined holds on null, unlike the isDefined of internalValidators |
| Common.ObjectsAndArrays | src/common.ts:31-32 | isObject holds on null, objects and arrays but not functions; isArray holds only on arrays, and arrays are objects |
| Common.NumbersAndStrings | src/common.ts:27-29 | numbers and strings are recognised, and neither is the other |
| Common.TruthTable | src/common.spec.ts:31-65 | every one of the 20 bool validators gives the expected truth-table row over the test values |
| Common.MarkAt | src/common.spec.ts:34-54 | a single cell of the truth table is as expected |
| ValidatorAdapters.OfSingleValidator | src/Validator.ts:23-26 | each input value is mapped by the validator, in order, one result per value |
| ValidatorAdapters.OfBoolValidator | src/Validator.ts:28-34 | success exactly when the test holds; otherwise an error with the literal text, or with the thunk's text |
| ValidatorAdapters.OfMessageValidator | src/Validator.ts:36-44 | success exactly when the message is empty; otherwise an error carrying the message |
| ValidatorAdapters.OfMessageIsM2s | src/Validator.ts:36-44 | ofMessageValidator(m) emits what ofSingleValidator(m2s(m)) emits |
| ValidatorAdapters.OfBoolIsB2s | src/Validator.ts:28-34 | with a non-empty text, ofBoolValidator agrees with ofSingleValidator(b2s(...)); with "" it emits errors carrying "", where b2s would say "Error" |
| ValidatorAdapters.AdaptersSplit | src/Validator.ts:23-44 | no adapter drops, adds or reorders emissions: the output for a concatenation is the concatenation of the outputs |
| ValidatorBuilder.Success | src/ValidatorBuilder.ts:20-21 | emits one success result, whatever the value |
| ValidatorBuilder.Message | src/ValidatorBuilder.ts:23-24 | emits one non-error message result with the given text |
| ValidatorBuilder.Error | src/ValidatorBuilder.ts:26-27 | emits one error result with the given text |
| ValidatorBuilder.Inconclusive | src/ValidatorBuilder.ts:29-30 | emits exactly one result, `inconclusiveResult(msg)`, whatever the value |
| ValidatorBuilder.StartWith | src/ValidatorBuilder.ts:32-35 | emits the given result first, then exactly the validator's emissions |
| ValidatorBuilder.StartInconclusive | src/ValidatorBuilder.ts:37 | emits the inconclusive result first, then exactly the validator's emissions |
| ValidatorBuilder.Collect | src/ValidatorBuilder.ts:44-52 | no validators give a relay of one success, one validator is relayed as it is, and two or more give a combine-latest over exactly those validators, in order, aggregated by `combineResults` |
| ValidatorBuilder.Compose | src/ValidatorBuilder.ts:54-74 | no properties give a relay of one success; otherwise a combine-latest with one child per property, in key order, whose mapper is the object mapper of the keys |
| ValidatorBuilder.ObjectMapperReadsBack | src/ValidatorBuilder.ts:65-69 | given one result per key, compose's mapper builds an object result that pairs every key, in order, with the result in its position, and is an error exactly when one of the results is |
| ValidatorBuilder.Run | src/ValidatorBuilder.ts:44-74 | a dispatcher: a relayed validator emits what it emits for the value, and a combination delegates to CombineLatest.Run; either way the output is what `Emissions` specifies |
| ValidatorBuilder.CollectEmissions | src/ValidatorBuilder.ts:44-52 | collect() emits one success; collect(v) emits what v emits; with two or more validators it emits the combine-latest of the aggregate |
| ValidatorBuilder.CollectSilencedBySilentChild | src/ValidatorBuilder.ts:47-50 | with two or more validators, one validator that never emits keeps collect silent |
| ValidatorBuilder.ComposeEmpty | src/ValidatorBuilder.ts:57-58 | compose of no properties emits one success |
| ValidatorBuilder.ObjectMapperLabels | src/ValidatorBuilder.ts:65-69 | compose's mapper builds the object result of all keys, in key order, each with its child's latest result |
| ValidatorBuilder.ComposeEmitsLatestObjects | src/ValidatorBuilder.ts:54-74 | once every property has a result, compose emits once per arrival, each time the object of all keys with their latest results |
| ValidatorBuilder.ObjectEmissions | src/ValidatorBuilder.ts:69-70 | the same, stated for the combine-latest of compose's mapper |
| ValidatorBuilder.ComposeSingle | src/ValidatorBuilder.ts:54-74 | compose of one property has no shortcut: it wraps each emission of its validator in a one-property object result |
| ValidatorBuilder.CollectTwoExample | src/ValidatorBuilder.spec.ts:96-112 | two validators that emit twice each, arriving alternately, give three aggregates of the latest pairs |
| ValidatorBuilder.ComposeTwoExample | src/ValidatorBuilder.spec.ts:137-147 | two properties that emit twice each, arriving alternately, give three object results of the latest pairs |
| CombineLatest.ArrivalUpdatesOneSlot | src/ValidatorBuilder.ts:47-50 | an arrival sets its own child's slot to its result and leaves every other slot unchanged |
| CombineLatest.LatestIsLastArrival | src/ValidatorBuilder.ts:47-50 | a slot is filled exactly when its child has arrived, and it then holds that child's last arrival |
| CombineLatest.FilledStaysFilled | src/ValidatorBuilder.ts:47-50 | a filled slot stays filled whatever arrives later |
| CombineLatest.CompleteStaysComplete | src/ValidatorBuilder.ts:47-50 | once every slot is filled, they all stay filled |
| CombineLatest.SilentUntilComplete | src/ValidatorBuilder.ts:47-50 | nothing is emitted while some slot is still empty |
| CombineLatest.NeverArrivedSilent | src/ValidatorBuilder.ts:47-50 | a child that never emits keeps the whole combination silent |
| CombineLatest.EmittedAfterComplete | src/ValidatorBuilder.ts:47-50 | from the arrival that fills the last slot on, each arrival emits exactly one result: the mapper of the latest results at that moment |
| CombineLatest.CompleteAfterPrefix | src/ValidatorBuilder.ts:47-50 | slots complete after a prefix are complete after the whole trace |
| CombineLatest.EmittedSingle | src/ValidatorBuilder.ts:47-50 | with one child, each of its results is mapped as it arrives |
| CombineLatest.InterleavedTwo | src/ValidatorBuilder.spec.ts:96-112 | the alternating trace of two children: no output until both have arrived, then one output per arrival, with the latest pair |
| CombineLatest.LatestSlots.constructor | src/ValidatorBuilder.ts:50 | new slots are all empty |
| CombineLatest.LatestSlots.Arrive | src/ValidatorBuilder.ts:50 | an arrival stores its result in its own slot and changes nothing else |
| CombineLatest.LatestSlots.AllFilled | src/ValidatorBuilder.ts:50 | reports exactly whether every slot is filled |
| CombineLatest.LatestSlots.Snapshot | src/ValidatorBuilder.ts:50 | returns the slots' results in child order |
| CombineLatest.Run | src/ValidatorBuilder.ts:47-50 | the loop over the arrival trace emits exactly what the specification `Emitted` says |

## Left out

- `delay` (src/ValidatorBuilder.ts:39-42) and `ofOneTimeValidator` (src/Validator.ts:18-21) are about timing and switching between streams. Time is represented only by the arrival order of the trace.
- The error channel of RxJS streams is not modelled. A predicate, message thunk or combine mapper that throws inside `map` or `combineLatest` turns into an error notification there. Here these are total functions, which cannot throw.
- Streams are finite sequences. Subscription, completion, unsubscription and cancellation of RxJS observables are not modelled.
- `inconclusiveResult` and `combineResults` are imported by src/ValidatorBuilder.ts but not defined in src/ValidationResult.ts, so they are parameters of the model. The first emission of the two-validator `collect` test is an aggregate of two inconclusive results, so it depends on that parameter.
- `compose` receives its properties as a sequence already in `Object.keys` order. JavaScript's key-ordering rules are not modelled.
- ValidatorBuilder.ObjectMapper: on a result list whose length differs from the keys it returns success. Combine-latest never calls it that way.
- ValidatorAdapters.OfBoolValidator: a thunk message is a pure function. A thunk with side effects is not modelled.
- JavaScript numbers are a tag: finite, NaN or infinite. No arithmetic is needed by the core.
- src/validators.ts, the `validators` table of src/common.ts (lines 99-121, which wraps the message table with `ofMessageValidator`) and `ValidatorMonad` are not part of this model.
- `isEither` and `isAll` of src/internalValidators.ts:5-12 are the same code as those of src/internal.ts, and are modelled once, in `Internal`.
- InternalValidators.IsArray: the contract says only that arrays are objects. Which values are arrays is the `Array` tag of the value model.
- ValidationResults.CollectionErrorMixExample follows the code, not src/ValidationResult.spec.ts:155-179. The test expects the non-error messages too. The code at src/ValidationResult.ts:60-62 shows only the erroring children when one child is an error.
- ValidationResults.ObjectErrorMixExample follows the code, not src/ValidationResult.spec.ts:277-301, for the same reason (src/ValidationResult.ts:72-75).
- The tests also expect `type`, `isSuccess` and `isInconclusive` fields. The result records of src/ValidationResult.ts do not have them, so the model does not either.
