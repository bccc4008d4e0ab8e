/**
 * Validation outcomes (src/ValidationResult.ts): leaf results, the unlabelled
 * collection aggregate and the labelled object aggregate, and the rules that
 * derive an aggregate's error flag and its CRLF-joined message text.
 */
module ValidationResults {
  import opened Streams

  /** The canonical line terminator of messages. */
  const CRLF: string := "\r\n"

  /** The `kind` of a leaf result. */
  datatype Kind = Success | Message | Warning | Error

  /**
   * The three shapes of a result. As in the source, `isError` and `message` are
   * stored fields; `Consistent` states how they must agree with the rest.
   */
  datatype ValidationResult =
    | Leaf(kind: Kind, isError: bool, message: string)
    | Collection(isError: bool, results: seq<ValidationResult>, message: string)
    | Object(isError: bool, properties: seq<PropertyValidation>, message: string)

  /** One labelled entry of an object result. */
  datatype PropertyValidation = PropertyValidation(property: string, result: ValidationResult)

  // ---------------------------------------------------------------- leaves

  function SuccessResult(): ValidationResult { Leaf(Success, false, "") }

  function MessageResult(msg: string): ValidationResult { Leaf(Message, false, msg) }

  function WarningResult(msg: string): ValidationResult { Leaf(Warning, false, msg) }

  function ErrorResult(msg: string): ValidationResult { Leaf(Error, true, msg) }

  /**
   * The agreement between the stored error flag and the rest of a result: a leaf
   * is an error exactly when its kind is Error, an aggregate exactly when one of
   * its children is, and every child agrees in turn.
   */
  predicate Consistent(r: ValidationResult)
  {
    match r
    case Leaf(kind, isError, _) => isError == (kind == Error)
    case Collection(isError, results, _) =>
      && (isError <==> exists i | 0 <= i < |results| :: results[i].isError)
      && forall i | 0 <= i < |results| :: Consistent(results[i])
    case Object(isError, properties, _) =>
      && (isError <==> exists i | 0 <= i < |properties| :: properties[i].result.isError)
      && forall i | 0 <= i < |properties| :: Consistent(properties[i].result)
  }

  /** Every leaf constructor yields a consistent leaf that carries the given text. */
  lemma {:induction false} LeafResults(msg: string)
    ensures var s := SuccessResult(); s.Leaf? && Consistent(s) && !s.isError && s.message == ""
    ensures var m := MessageResult(msg); m.Leaf? && Consistent(m) && !m.isError && m.message == msg
    ensures var w := WarningResult(msg); w.Leaf? && Consistent(w) && !w.isError && w.message == msg
    ensures var e := ErrorResult(msg); e.Leaf? && Consistent(e) && e.isError && e.message == msg
  {
  }

  // ---------------------------------------------------------------- line terminators

  predicate EndsWithCrlf(text: string)
  {
    |text| >= 2 && text[|text| - 2..] == CRLF
  }

  /** Terminates a non-empty text that is not terminated yet. */
  function NewLineIfNeeded(text: string): (r: string)
    ensures r == text || r == text + CRLF
    ensures (r == text) <==> (text == "" || EndsWithCrlf(text))
    ensures (r == "") <==> (text == "")
    ensures r == "" || EndsWithCrlf(r)
  {
    if text == "" || EndsWithCrlf(text) then text else text + CRLF
  }

  lemma {:induction false} NewLineIfNeededIdempotent(text: string)
    ensures NewLineIfNeeded(NewLineIfNeeded(text)) == NewLineIfNeeded(text)
  {
  }

  /**
   * The message fold of both aggregates: `reduce((acc, line) =>
   * newLineIfNeeded(acc) + line, acc)` over the lines, from left to right.
   */
  function JoinLines(acc: string, lines: seq<string>): string
    decreases |lines|
  {
    if lines == [] then acc else JoinLines(NewLineIfNeeded(acc) + lines[0], lines[1..])
  }

  /** The fold only appends: its start text is a prefix of what it builds. */
  lemma {:induction false} JoinLinesExtends(acc: string, lines: seq<string>)
    ensures acc <= JoinLines(acc, lines)
    decreases |lines|
  {
    if lines != [] {
      var next := NewLineIfNeeded(acc) + lines[0];
      assert acc <= next;
      JoinLinesExtends(next, lines[1..]);
    }
  }

  /** The fold yields "" exactly when it starts from "" and every line is "". */
  lemma {:induction false} JoinLinesEmpty(acc: string, lines: seq<string>)
    ensures JoinLines(acc, lines) == "" <==> acc == "" && forall i | 0 <= i < |lines| :: lines[i] == ""
    decreases |lines|
  {
    if lines != [] {
      var next := NewLineIfNeeded(acc) + lines[0];
      JoinLinesEmpty(next, lines[1..]);
      assert forall i | 1 <= i < |lines| :: lines[i] == lines[1..][i - 1];
    }
  }

  /** Folding a concatenation folds the second part from the result of the first. */
  lemma {:induction false} JoinLinesConcat(acc: string, a: seq<string>, b: seq<string>)
    ensures JoinLines(acc, a + b) == JoinLines(JoinLines(acc, a), b)
    decreases |a|
  {
    if a == [] {
      assert a + b == b;
    } else {
      var next := NewLineIfNeeded(acc) + a[0];
      assert (a + b)[0] == a[0];
      assert (a + b)[1..] == a[1..] + b;
      calc {
        JoinLines(acc, a + b);
        JoinLines(next, a[1..] + b);
        { JoinLinesConcat(next, a[1..], b); }
        JoinLines(JoinLines(next, a[1..]), b);
      }
    }
  }

  lemma {:induction false} JoinLinesOne(acc: string, line: string)
    ensures JoinLines(acc, [line]) == NewLineIfNeeded(acc) + line
  {
    assert [line][1..] == [];
  }

  lemma {:induction false} JoinLinesTwo(acc: string, l1: string, l2: string)
    ensures JoinLines(acc, [l1, l2]) == NewLineIfNeeded(NewLineIfNeeded(acc) + l1) + l2
  {
    assert [l1, l2][1..] == [l2];
    JoinLinesOne(NewLineIfNeeded(acc) + l1, l2);
  }

  lemma {:induction false} JoinLinesThree(acc: string, l1: string, l2: string, l3: string)
    ensures JoinLines(acc, [l1, l2, l3]) == NewLineIfNeeded(NewLineIfNeeded(NewLineIfNeeded(acc) + l1) + l2) + l3
  {
    assert [l1, l2, l3][1..] == [l2, l3];
    JoinLinesTwo(NewLineIfNeeded(acc) + l1, l2, l3);
  }

  /** Before a further line, only the terminated accumulator matters. */
  lemma {:induction false} JoinLinesNormalises(acc: string, lines: seq<string>)
    requires lines != []
    ensures JoinLines(acc, lines) == JoinLines(NewLineIfNeeded(acc), lines)
  {
    NewLineIfNeededIdempotent(acc);
  }

  /** An empty line followed by more lines adds nothing. */
  lemma {:induction false} JoinLinesSkipsEmpty(acc: string, rest: seq<string>)
    requires rest != []
    ensures JoinLines(acc, [""] + rest) == JoinLines(acc, rest)
  {
    var lines := [""] + rest;
    assert lines[0] == "" && lines[1..] == rest;
    assert NewLineIfNeeded(acc) + "" == NewLineIfNeeded(acc);
    JoinLinesNormalises(acc, rest);
  }

  /** An empty line at the end leaves exactly one trailing terminator (if the text is non-empty). */
  lemma {:induction false} JoinLinesTrailingEmpty(acc: string, lines: seq<string>)
    ensures JoinLines(acc, lines + [""]) == NewLineIfNeeded(JoinLines(acc, lines))
  {
    JoinLinesConcat(acc, lines, [""]);
    assert NewLineIfNeeded(JoinLines(acc, lines)) + "" == NewLineIfNeeded(JoinLines(acc, lines));
  }

  /** Lines with `sep` between consecutive ones: the reference the fold is compared with. */
  function JoinWith(sep: string, lines: seq<string>): string
    decreases |lines|
  {
    if lines == [] then ""
    else if |lines| == 1 then lines[0]
    else lines[0] + sep + JoinWith(sep, lines[1..])
  }

  /** A line that the fold neither drops nor merges: non-empty and not already terminated. */
  predicate Unterminated(line: string)
  {
    line != "" && !EndsWithCrlf(line)
  }

  /** Appending CRLF and an unterminated line to an unterminated text leaves it unterminated. */
  lemma {:induction false} UnterminatedStep(acc: string, line: string)
    requires Unterminated(acc) && Unterminated(line)
    ensures NewLineIfNeeded(acc) + line == acc + CRLF + line
    ensures Unterminated(acc + CRLF + line)
  {
    assert EndsWithCrlf(acc + CRLF) by { assert (acc + CRLF)[|acc + CRLF| - 2..] == CRLF; }
    UnterminatedAfter(acc + CRLF, line);
  }

  /** Every line is unterminated, stated line by line from the front. */
  predicate AllUnterminated(lines: seq<string>)
    decreases |lines|
  {
    lines == [] || (Unterminated(lines[0]) && AllUnterminated(lines[1..]))
  }

  lemma {:induction false} AllUnterminatedAt(lines: seq<string>)
    requires forall i | 0 <= i < |lines| :: Unterminated(lines[i])
    ensures AllUnterminated(lines)
    decreases |lines|
  {
    if lines != [] {
      var rest := lines[1..];
      assert forall i | 0 <= i < |rest| :: Unterminated(rest[i]) by {
        forall i | 0 <= i < |rest| ensures Unterminated(rest[i]) {
          assert rest[i] == lines[i + 1];
        }
      }
      AllUnterminatedAt(rest);
    }
  }

  /**
   * From an unterminated start, the fold over unterminated lines puts exactly
   * one CRLF before each line.
   */
  lemma {:induction false} JoinLinesAfter(acc: string, lines: seq<string>)
    requires Unterminated(acc) && AllUnterminated(lines)
    ensures JoinLines(acc, lines) == if lines == [] then acc else acc + CRLF + JoinWith(CRLF, lines)
    decreases |lines|
  {
    if lines != [] {
      var line, rest := lines[0], lines[1..];
      var next := acc + CRLF + line;
      assert Unterminated(next) && JoinLines(acc, lines) == JoinLines(next, rest) by {
        UnterminatedStep(acc, line);
      }
      JoinLinesAfter(next, rest);
      if rest != [] {
        JoinWithAfter(acc, lines);
      }
    }
  }

  /** Prepending `acc` and CRLF to a join of two or more lines regroups as expected. */
  lemma {:induction false} JoinWithAfter(acc: string, lines: seq<string>)
    requires |lines| >= 2
    ensures (acc + CRLF + lines[0]) + CRLF + JoinWith(CRLF, lines[1..]) == acc + CRLF + JoinWith(CRLF, lines)
  {
    var tail := JoinWith(CRLF, lines[1..]);
    assert JoinWith(CRLF, lines) == lines[0] + CRLF + tail;
  }

  /** From "", the fold over unterminated lines is the CRLF-separated join. */
  lemma {:induction false} JoinLinesIsJoin(lines: seq<string>)
    requires forall i | 0 <= i < |lines| :: Unterminated(lines[i])
    ensures JoinLines("", lines) == JoinWith(CRLF, lines)
  {
    AllUnterminatedAt(lines);
    if lines != [] {
      assert NewLineIfNeeded("") + lines[0] == lines[0];
      assert JoinLines("", lines) == JoinLines(lines[0], lines[1..]);
      JoinLinesAfter(lines[0], lines[1..]);
    }
  }

  // ---------------------------------------------------------------- `some` and `filter`

  /** `xs.some(p)`. */
  function Any<T>(xs: seq<T>, p: T -> bool): bool
    decreases |xs|
  {
    xs != [] && (p(xs[0]) || Any(xs[1..], p))
  }

  /** `xs.filter(p)`: the elements satisfying `p`, in their original order. */
  function Filter<T>(xs: seq<T>, p: T -> bool): (r: seq<T>)
    ensures |r| <= |xs|
    ensures forall i | 0 <= i < |r| :: r[i] in xs && p(r[i])
    ensures forall i | 0 <= i < |xs| && p(xs[i]) :: xs[i] in r
    decreases |xs|
  {
    if xs == [] then []
    else (if p(xs[0]) then [xs[0]] else []) + Filter(xs[1..], p)
  }

  lemma {:induction false} AnyExists<T>(xs: seq<T>, p: T -> bool)
    ensures Any(xs, p) <==> exists i | 0 <= i < |xs| :: p(xs[i])
    decreases |xs|
  {
    if xs != [] {
      AnyExists(xs[1..], p);
      assert forall i | 1 <= i < |xs| :: xs[i] == xs[1..][i - 1];
    }
  }

  /** Nothing survives the filter exactly when nothing satisfies the predicate. */
  lemma {:induction false} FilterEmpty<T>(xs: seq<T>, p: T -> bool)
    ensures Filter(xs, p) == [] <==> !Any(xs, p)
    decreases |xs|
  {
    if xs != [] {
      FilterEmpty(xs[1..], p);
    }
  }

  lemma {:induction false} FilterConcat<T>(a: seq<T>, b: seq<T>, p: T -> bool)
    ensures Filter(a + b, p) == Filter(a, p) + Filter(b, p)
    decreases |a|
  {
    if a == [] {
      assert a + b == b;
    } else {
      assert (a + b)[0] == a[0];
      assert (a + b)[1..] == a[1..] + b;
      FilterConcat(a[1..], b, p);
    }
  }

  lemma {:induction false} FilterSingle<T>(x: T, p: T -> bool)
    ensures Any([x], p) == p(x)
    ensures Filter([x], p) == if p(x) then [x] else []
  {
    assert [x][1..] == [];
  }

  lemma {:induction false} FilterKeepsAll<T>(xs: seq<T>, p: T -> bool)
    requires forall i | 0 <= i < |xs| :: p(xs[i])
    ensures Filter(xs, p) == xs
    decreases |xs|
  {
    if xs != [] {
      FilterKeepsAll(xs[1..], p);
    }
  }

  // ---------------------------------------------------------------- collection results

  function IsErrorResult(r: ValidationResult): bool { r.isError }

  function MessageOf(r: ValidationResult): string { r.message }

  /** The children whose messages are shown: the erroring ones if there are any, else all. */
  function ShownResults(results: seq<ValidationResult>): seq<ValidationResult>
  {
    if Any(results, IsErrorResult) then Filter(results, IsErrorResult) else results
  }

  /**
   * `collectionResult`: an error exactly when some child is; the children are
   * kept as given; the message joins the shown children's messages.
   */
  function CollectionResult(results: seq<ValidationResult>): (r: ValidationResult)
    ensures r.Collection? && r.results == results
    ensures r.isError <==> exists i | 0 <= i < |results| :: results[i].isError
  {
    AnyExists(results, IsErrorResult);
    Collection(Any(results, IsErrorResult), results, JoinLines("", Map(MessageOf, ShownResults(results))))
  }

  lemma {:induction false} CollectionResultConsistent(results: seq<ValidationResult>)
    requires forall i | 0 <= i < |results| :: Consistent(results[i])
    ensures Consistent(CollectionResult(results))
  {
  }

  lemma {:induction false} CollectionEmpty()
    ensures CollectionResult([]) == Collection(false, [], "")
  {
  }

  /** A single child's message is shown as it is. */
  lemma {:induction false} CollectionSingle(r: ValidationResult)
    ensures CollectionResult([r]).isError == r.isError
    ensures CollectionResult([r]).message == r.message
  {
    FilterSingle(r, IsErrorResult);
    assert ShownResults([r]) == [r];
    assert Map(MessageOf, [r]) == [r.message];
    JoinLinesOne("", r.message);
  }

  /**
   * Two children that are both shown (both errors, or both not): a non-empty,
   * unterminated first message and the second, joined by CRLF.
   */
  lemma {:induction false} CollectionTwo(a: ValidationResult, b: ValidationResult)
    requires a.isError == b.isError
    requires a.message != "" && !EndsWithCrlf(a.message)
    ensures CollectionResult([a, b]).message == a.message + CRLF + b.message
  {
    var rs := [a, b];
    assert ShownResults(rs) == rs by {
      AnyExists(rs, IsErrorResult);
      if a.isError {
        FilterKeepsAll(rs, IsErrorResult);
      }
    }
    assert Map(MessageOf, rs) == [a.message, b.message];
    JoinLinesTwo("", a.message, b.message);
    assert NewLineIfNeeded("") + a.message == a.message;
    assert NewLineIfNeeded(a.message) == a.message + CRLF;
  }

  /** Once some child errs, the message is decided by the erroring children alone. */
  lemma {:induction false} CollectionErrorsDecideMessage(results: seq<ValidationResult>, others: seq<ValidationResult>)
    requires exists i | 0 <= i < |results| :: results[i].isError
    requires Filter(results, IsErrorResult) == Filter(others, IsErrorResult)
    ensures CollectionResult(others).isError
    ensures CollectionResult(others).message == CollectionResult(results).message
  {
    AnyExists(results, IsErrorResult);
    FilterEmpty(results, IsErrorResult);
    FilterEmpty(others, IsErrorResult);
  }

  /** Inserting (or, read backwards, removing) a non-error child beside an error changes nothing shown. */
  lemma {:induction false} CollectionIgnoresNonError(a: seq<ValidationResult>, x: ValidationResult, b: seq<ValidationResult>)
    requires !x.isError
    requires exists i | 0 <= i < |a + b| :: (a + b)[i].isError
    ensures CollectionResult(a + [x] + b).message == CollectionResult(a + b).message
  {
    var fa, fb := Filter(a, IsErrorResult), Filter(b, IsErrorResult);
    assert Filter(a + [x] + b, IsErrorResult) == fa + fb by {
      FilterConcat(a + [x], b, IsErrorResult);
      FilterConcat(a, [x], IsErrorResult);
      FilterSingle(x, IsErrorResult);
      assert fa + [] == fa;
    }
    FilterConcat(a, b, IsErrorResult);
    CollectionErrorsDecideMessage(a + b, a + [x] + b);
  }

  /** The message is "" exactly when every shown child's message is "". */
  lemma {:induction false} CollectionMessageEmpty(results: seq<ValidationResult>)
    ensures CollectionResult(results).message == "" <==>
      forall r | r in results && (r.isError || !CollectionResult(results).isError) :: r.message == ""
  {
    var shown := ShownResults(results);
    JoinLinesEmpty("", Map(MessageOf, shown));
    AnyExists(results, IsErrorResult);
    var err := Any(results, IsErrorResult);
    assert forall r | r in shown :: r in results && (r.isError || !err) by {
      forall r | r in shown ensures r in results && (r.isError || !err) {
        var i :| 0 <= i < |shown| && shown[i] == r;
      }
    }
    assert forall r | r in results && (r.isError || !err) :: r in shown by {
      forall r | r in results && (r.isError || !err) ensures r in shown {
        var i :| 0 <= i < |results| && results[i] == r;
      }
    }
  }

  /** Messages of error-free children, as the fold sees them. */
  lemma {:induction false} MessagesSplit(a: seq<ValidationResult>, x: ValidationResult, b: seq<ValidationResult>)
    ensures Map(MessageOf, a + [x] + b) == Map(MessageOf, a) + ([x.message] + Map(MessageOf, b))
    ensures Map(MessageOf, a + b) == Map(MessageOf, a) + Map(MessageOf, b)
  {
    MapConcat(MessageOf, a + [x], b);
    MapConcat(MessageOf, a, [x]);
    MapConcat(MessageOf, a, b);
  }

  lemma {:induction false} NoErrorsSplit(a: seq<ValidationResult>, x: ValidationResult, b: seq<ValidationResult>)
    requires !x.isError
    requires forall r | r in a + b :: !r.isError
    ensures !Any(a + [x] + b, IsErrorResult) && !Any(a + b, IsErrorResult)
  {
    AnyExists(a + [x] + b, IsErrorResult);
    AnyExists(a + b, IsErrorResult);
    forall i | 0 <= i < |a + [x] + b| ensures !(a + [x] + b)[i].isError {
      var r := (a + [x] + b)[i];
      assert r == x || r in a + b;
    }
  }

  /** With no error, a child with an empty message followed by more children adds no terminator. */
  lemma {:induction false} CollectionSkipsEmptyMessage(a: seq<ValidationResult>, x: ValidationResult, b: seq<ValidationResult>)
    requires !x.isError && x.message == "" && b != []
    requires forall r | r in a + b :: !r.isError
    ensures CollectionResult(a + [x] + b).message == CollectionResult(a + b).message
  {
    NoErrorsSplit(a, x, b);
    MessagesSplit(a, x, b);
    var ma, mb := Map(MessageOf, a), Map(MessageOf, b);
    JoinLinesConcat("", ma, [""] + mb);
    JoinLinesConcat("", ma, mb);
    JoinLinesSkipsEmpty(JoinLines("", ma), mb);
  }

  /** With no error, a last child with an empty message leaves one trailing terminator. */
  lemma {:induction false} CollectionTrailingEmptyMessage(a: seq<ValidationResult>, x: ValidationResult)
    requires !x.isError && x.message == ""
    requires forall r | r in a :: !r.isError
    ensures CollectionResult(a + [x]).message == NewLineIfNeeded(CollectionResult(a).message)
  {
    NoErrorsSplit(a, x, []);
    assert a + [x] + [] == a + [x] && a + [] == a;
    MapConcat(MessageOf, a, [x]);
    assert Map(MessageOf, [x]) == [""];
    JoinLinesTrailingEmpty("", Map(MessageOf, a));
  }

  // ---------------------------------------------------------------- object results

  function IsErrorProperty(p: PropertyValidation): bool { p.result.isError }

  /** One property's contribution: its terminated label, then its result's message. */
  function LabelledMessage(p: PropertyValidation): string
  {
    NewLineIfNeeded(p.property) + p.result.message
  }

  /** The properties whose entries are shown: the erroring ones if there are any, else all. */
  function ShownProperties(properties: seq<PropertyValidation>): seq<PropertyValidation>
  {
    if Any(properties, IsErrorProperty) then Filter(properties, IsErrorProperty) else properties
  }

  /**
   * `objectResult`: an error exactly when some property's result is; the
   * properties are kept as given; the message joins the shown properties'
   * labels and messages.
   */
  function ObjectResult(properties: seq<PropertyValidation>): (r: ValidationResult)
    ensures r.Object? && r.properties == properties
    ensures r.isError <==> exists i | 0 <= i < |properties| :: properties[i].result.isError
  {
    AnyExists(properties, IsErrorProperty);
    Object(Any(properties, IsErrorProperty), properties,
           JoinLines("", Map(LabelledMessage, ShownProperties(properties))))
  }

  lemma {:induction false} ObjectResultConsistent(properties: seq<PropertyValidation>)
    requires forall i | 0 <= i < |properties| :: Consistent(properties[i].result)
    ensures Consistent(ObjectResult(properties))
  {
  }

  lemma {:induction false} ObjectEmpty()
    ensures ObjectResult([]) == Object(false, [], "")
  {
  }

  /** A single property p with result r reads p, CRLF, then r's message. */
  lemma {:induction false} ObjectSingle(p: string, r: ValidationResult)
    requires p != "" && !EndsWithCrlf(p)
    ensures ObjectResult([PropertyValidation(p, r)]).isError == r.isError
    ensures ObjectResult([PropertyValidation(p, r)]).message == p + CRLF + r.message
  {
    var pv := PropertyValidation(p, r);
    FilterSingle(pv, IsErrorProperty);
    assert ShownProperties([pv]) == [pv];
    assert Map(LabelledMessage, [pv]) == [p + CRLF + r.message];
    JoinLinesOne("", p + CRLF + r.message);
  }

  /** A non-empty text without a trailing terminator keeps lacking one after any prefix that has one. */
  lemma {:induction false} UnterminatedAfter(prefix: string, text: string)
    requires EndsWithCrlf(prefix)
    requires text != "" && !EndsWithCrlf(text)
    ensures !EndsWithCrlf(prefix + text)
  {
    var whole := prefix + text;
    if |text| >= 2 {
      assert whole[|whole| - 2..] == text[|text| - 2..];
    } else {
      assert whole[|whole| - 2] == prefix[|prefix| - 1] == '\n';
    }
  }

  /** An unterminated, non-empty label gets exactly one terminator before its message. */
  lemma {:induction false} LabelledLine(p: string, r: ValidationResult)
    requires p != "" && !EndsWithCrlf(p)
    ensures LabelledMessage(PropertyValidation(p, r)) == p + CRLF + r.message
  {
  }

  /** Two properties that are both shown: the first line, terminated, then the second. */
  lemma {:induction false} ObjectTwoLines(a: PropertyValidation, b: PropertyValidation)
    requires a.result.isError == b.result.isError
    ensures ObjectResult([a, b]).message == NewLineIfNeeded(LabelledMessage(a)) + LabelledMessage(b)
  {
    var ps := [a, b];
    AnyExists(ps, IsErrorProperty);
    if a.result.isError {
      FilterKeepsAll(ps, IsErrorProperty);
    }
    assert ShownProperties(ps) == ps;
    assert Map(LabelledMessage, ps) == [LabelledMessage(a), LabelledMessage(b)];
    JoinLinesTwo("", LabelledMessage(a), LabelledMessage(b));
    assert NewLineIfNeeded("") + LabelledMessage(a) == LabelledMessage(a);
  }

  /**
   * Two properties that are both shown (both erroring, or both not): each label
   * on its own line, followed by its message.
   */
  lemma {:induction false} ObjectTwo(p1: string, r1: ValidationResult, p2: string, r2: ValidationResult)
    requires r1.isError == r2.isError
    requires p1 != "" && !EndsWithCrlf(p1) && p2 != "" && !EndsWithCrlf(p2)
    requires !EndsWithCrlf(r1.message)
    ensures ObjectResult([PropertyValidation(p1, r1), PropertyValidation(p2, r2)]).message ==
      p1 + CRLF + (if r1.message == "" then "" else r1.message + CRLF) + p2 + CRLF + r2.message
  {
    var a, b := PropertyValidation(p1, r1), PropertyValidation(p2, r2);
    var t1 := if r1.message == "" then "" else r1.message + CRLF;
    calc {
      ObjectResult([a, b]).message;
    == { ObjectTwoLines(a, b); }
      NewLineIfNeeded(LabelledMessage(a)) + LabelledMessage(b);
    == { LabelledLine(p1, r1); LabelledLine(p2, r2); }
      NewLineIfNeeded(p1 + CRLF + r1.message) + (p2 + CRLF + r2.message);
    == { TwoLabelledLines(p1, r1.message, p2 + CRLF + r2.message); }
      p1 + CRLF + t1 + (p2 + CRLF + r2.message);
    == { Reassociate(p1 + CRLF + t1, p2, CRLF, r2.message); }
      p1 + CRLF + t1 + p2 + CRLF + r2.message;
    }
  }

  /** A terminated label, an unterminated message, then the next text. */
  lemma {:induction false} TwoLabelledLines(p: string, m: string, next: string)
    requires p != "" && !EndsWithCrlf(m)
    ensures NewLineIfNeeded(p + CRLF + m) + next == p + CRLF + (if m == "" then "" else m + CRLF) + next
  {
    var line := p + CRLF + m;
    if m == "" {
      assert line == p + CRLF;
    } else {
      UnterminatedAfter(p + CRLF, m);
      assert NewLineIfNeeded(line) == p + CRLF + (m + CRLF);
    }
  }

  /** Once some property errs, the message is decided by the erroring properties alone. */
  lemma {:induction false} ObjectErrorsDecideMessage(properties: seq<PropertyValidation>, others: seq<PropertyValidation>)
    requires exists i | 0 <= i < |properties| :: properties[i].result.isError
    requires Filter(properties, IsErrorProperty) == Filter(others, IsErrorProperty)
    ensures ObjectResult(others).isError
    ensures ObjectResult(others).message == ObjectResult(properties).message
  {
    AnyExists(properties, IsErrorProperty);
    FilterEmpty(properties, IsErrorProperty);
    FilterEmpty(others, IsErrorProperty);
  }

  /** A non-error property beside an erroring one contributes neither its label nor its message. */
  lemma {:induction false} ObjectIgnoresNonError(a: seq<PropertyValidation>, x: PropertyValidation, b: seq<PropertyValidation>)
    requires !x.result.isError
    requires exists i | 0 <= i < |a + b| :: (a + b)[i].result.isError
    ensures ObjectResult(a + [x] + b).message == ObjectResult(a + b).message
  {
    var fa, fb := Filter(a, IsErrorProperty), Filter(b, IsErrorProperty);
    assert Filter(a + [x] + b, IsErrorProperty) == fa + fb by {
      FilterConcat(a + [x], b, IsErrorProperty);
      FilterConcat(a, [x], IsErrorProperty);
      FilterSingle(x, IsErrorProperty);
      assert fa + [] == fa;
    }
    FilterConcat(a, b, IsErrorProperty);
    ObjectErrorsDecideMessage(a + b, a + [x] + b);
  }

  // ---------------------------------------------------------------- worked examples

  /**
   * The test case of an error-free mix (success, message, message): the leading
   * success adds nothing and the two messages are joined.
   */
  lemma {:induction false} CollectionMixExample(m1: string, m2: string)
    requires m1 != "" && !EndsWithCrlf(m1)
    ensures CollectionResult([SuccessResult(), MessageResult(m1), MessageResult(m2)]).message == m1 + CRLF + m2
  {
    var r1, r2 := MessageResult(m1), MessageResult(m2);
    CollectionSkipsEmptyMessage([], SuccessResult(), [r1, r2]);
    assert [] + [SuccessResult()] + [r1, r2] == [SuccessResult(), r1, r2];
    assert [] + [r1, r2] == [r1, r2];
    CollectionTwo(r1, r2);
  }

  /**
   * The test case of a mix with errors (error, success, message, message, error)
   * shows only the two errors. The test of this case expects the non-error
   * messages as well; the code filters them out.
   */
  lemma {:induction false} CollectionErrorMixExample(e1: string, m1: string, m2: string, e2: string)
    requires e1 != "" && !EndsWithCrlf(e1)
    ensures CollectionResult([ErrorResult(e1), SuccessResult(), MessageResult(m1),
                              MessageResult(m2), ErrorResult(e2)]).message == e1 + CRLF + e2
  {
    var middle := [SuccessResult(), MessageResult(m1), MessageResult(m2)];
    var rs := [ErrorResult(e1)] + middle + [ErrorResult(e2)];
    assert rs == [ErrorResult(e1), SuccessResult(), MessageResult(m1), MessageResult(m2), ErrorResult(e2)];
    calc {
      CollectionResult(rs).message;
    == { CollectionErrorsAround(ErrorResult(e1), middle, ErrorResult(e2)); }
      e1 + CRLF + e2;
    }
  }

  /** Only the two erroring ends of `[first] + middle + [last]` are shown. */
  lemma {:induction false} CollectionErrorsAround(first: ValidationResult, middle: seq<ValidationResult>, last: ValidationResult)
    requires first.isError && last.isError
    requires forall i | 0 <= i < |middle| :: !middle[i].isError
    requires first.message != "" && !EndsWithCrlf(first.message)
    ensures CollectionResult([first] + middle + [last]).message == first.message + CRLF + last.message
  {
    FilterAround(first, middle, last, IsErrorResult);
    FilterKeepsAll([first, last], IsErrorResult);
    assert [first, last][0].isError;
    CollectionErrorsDecideMessage([first, last], [first] + middle + [last]);
    CollectionTwo(first, last);
  }

  /** Filtering `[first] + middle + [last]` when only the two ends pass. */
  lemma {:induction false} FilterAround<T>(first: T, middle: seq<T>, last: T, p: T -> bool)
    requires p(first) && p(last)
    requires forall i | 0 <= i < |middle| :: !p(middle[i])
    ensures Filter([first] + middle + [last], p) == [first, last]
  {
    FilterConcat([first] + middle, [last], p);
    FilterConcat([first], middle, p);
    FilterSingle(first, p);
    FilterSingle(last, p);
    FilterEmpty(middle, p);
    AnyExists(middle, p);
  }

  /** The test case of a single successful property: its label and one terminator. */
  lemma {:induction false} ObjectSuccessExample(p: string)
    requires p != "" && !EndsWithCrlf(p)
    ensures ObjectResult([PropertyValidation(p, SuccessResult())]).message == p + CRLF
  {
    ObjectSingle(p, SuccessResult());
  }

  /**
   * The test case of an error-free mix (success, message, message): every
   * label is shown, a success's label is followed directly by the next label.
   */
  lemma {:induction false} ObjectMixExample(p2: string, p3: string, m1: string, p4: string, m2: string)
    requires p2 != "" && !EndsWithCrlf(p2) && p3 != "" && !EndsWithCrlf(p3) && p4 != "" && !EndsWithCrlf(p4)
    requires m1 != "" && !EndsWithCrlf(m1)
    ensures ObjectResult([PropertyValidation(p2, SuccessResult()), PropertyValidation(p3, MessageResult(m1)),
                          PropertyValidation(p4, MessageResult(m2))]).message
            == p2 + CRLF + p3 + CRLF + m1 + CRLF + p4 + CRLF + m2
  {
    var ps := [PropertyValidation(p2, SuccessResult()), PropertyValidation(p3, MessageResult(m1)),
               PropertyValidation(p4, MessageResult(m2))];
    var l2, l3, l4 := p2 + CRLF, p3 + CRLF + m1, p4 + CRLF + m2;
    calc {
      ObjectResult(ps).message;
    == { ObjectMixLines(p2, p3, m1, p4, m2); }
      JoinLines("", [l2, l3, l4]);
    == { JoinLinesThree("", l2, l3, l4); }
      NewLineIfNeeded(NewLineIfNeeded(NewLineIfNeeded("") + l2) + l3) + l4;
    == { assert NewLineIfNeeded("") + l2 == l2;
         assert EndsWithCrlf(l2) by { assert l2[|l2| - 2..] == CRLF; } }
      NewLineIfNeeded(l2 + l3) + l4;
    == { ThreeLinesText(p2, p3, m1, l4); }
      p2 + CRLF + p3 + CRLF + m1 + CRLF + l4;
    == { Reassociate(p2 + CRLF + p3 + CRLF + m1 + CRLF, p4, CRLF, m2); }
      p2 + CRLF + p3 + CRLF + m1 + CRLF + p4 + CRLF + m2;
    }
  }

  /** The lines ObjectMixExample folds: a bare label, then two labelled messages. */
  lemma {:induction false} ObjectMixLines(p2: string, p3: string, m1: string, p4: string, m2: string)
    requires p2 != "" && !EndsWithCrlf(p2) && p3 != "" && !EndsWithCrlf(p3) && p4 != "" && !EndsWithCrlf(p4)
    ensures ObjectResult([PropertyValidation(p2, SuccessResult()), PropertyValidation(p3, MessageResult(m1)),
                          PropertyValidation(p4, MessageResult(m2))]).message
            == JoinLines("", [p2 + CRLF, p3 + CRLF + m1, p4 + CRLF + m2])
  {
    var ps := [PropertyValidation(p2, SuccessResult()), PropertyValidation(p3, MessageResult(m1)),
               PropertyValidation(p4, MessageResult(m2))];
    var l2, l3, l4 := p2 + CRLF, p3 + CRLF + m1, p4 + CRLF + m2;
    calc {
      ObjectResult(ps).message;
    == { ObjectNoErrors(ps); }
      JoinLines("", Map(LabelledMessage, ps));
    == { LabelledLine(p2, SuccessResult());
         LabelledLine(p3, MessageResult(m1));
         LabelledLine(p4, MessageResult(m2));
         assert l2 == p2 + CRLF + "";
         assert Map(LabelledMessage, ps) == [l2, l3, l4]; }
      JoinLines("", [l2, l3, l4]);
    }
  }

  /** Without an erroring property every property is shown, in order. */
  lemma {:induction false} ObjectNoErrors(ps: seq<PropertyValidation>)
    requires forall i | 0 <= i < |ps| :: !ps[i].result.isError
    ensures ObjectResult(ps).message == JoinLines("", Map(LabelledMessage, ps))
  {
    AnyExists(ps, IsErrorProperty);
  }

  /** A bare label line, a labelled message line, then the next text. */
  lemma {:induction false} ThreeLinesText(p2: string, p3: string, m1: string, next: string)
    requires m1 != "" && !EndsWithCrlf(m1)
    ensures NewLineIfNeeded((p2 + CRLF) + (p3 + CRLF + m1)) + next == p2 + CRLF + p3 + CRLF + m1 + CRLF + next
  {
    var l2, l3 := p2 + CRLF, p3 + CRLF + m1;
    UnterminatedAfter(p3 + CRLF, m1);
    assert l3 == (p3 + CRLF) + m1;
    assert EndsWithCrlf(l2) by { assert l2[|l2| - 2..] == CRLF; }
    UnterminatedAfter(l2, l3);
    Reassociate(l2, p3, CRLF, m1);
  }

  /** Regrouping a concatenation of four texts. */
  lemma {:induction false} Reassociate(a: string, b: string, c: string, d: string)
    ensures a + ((b + c) + d) == a + b + c + d
  {
  }

  /**
   * The test case of a mix with errors (error, success, message, message,
   * error) shows only the two erroring properties. The test of this case
   * expects every label and message; the code filters the others out.
   */
  lemma {:induction false} ObjectErrorMixExample(p1: string, e1: string, p2: string, p3: string, m1: string,
                              p4: string, m2: string, p5: string, e2: string)
    requires p1 != "" && !EndsWithCrlf(p1) && p5 != "" && !EndsWithCrlf(p5)
    requires !EndsWithCrlf(e1)
    ensures ObjectResult([PropertyValidation(p1, ErrorResult(e1)), PropertyValidation(p2, SuccessResult()),
                          PropertyValidation(p3, MessageResult(m1)), PropertyValidation(p4, MessageResult(m2)),
                          PropertyValidation(p5, ErrorResult(e2))]).message
            == p1 + CRLF + (if e1 == "" then "" else e1 + CRLF) + p5 + CRLF + e2
  {
    var first, last := PropertyValidation(p1, ErrorResult(e1)), PropertyValidation(p5, ErrorResult(e2));
    var middle := [PropertyValidation(p2, SuccessResult()), PropertyValidation(p3, MessageResult(m1)),
                   PropertyValidation(p4, MessageResult(m2))];
    var ps := [first] + middle + [last];
    assert ps == [first, middle[0], middle[1], middle[2], last];
    calc {
      ObjectResult(ps).message;
    == { FilterAround(first, middle, last, IsErrorProperty);
         FilterKeepsAll([first, last], IsErrorProperty);
         assert [first, last][0].result.isError;
         ObjectErrorsDecideMessage([first, last], ps); }
      ObjectResult([first, last]).message;
    == { ObjectTwo(p1, ErrorResult(e1), p5, ErrorResult(e2)); }
      p1 + CRLF + (if e1 == "" then "" else e1 + CRLF) + p5 + CRLF + e2;
    }
  }

  /**
   * When every shown child's message is unterminated, a collection's message
   * is the shown messages separated by CRLF.
   */
  lemma {:induction false} CollectionMessageIsJoin(results: seq<ValidationResult>)
    requires forall r | r in ShownResults(results) :: Unterminated(r.message)
    ensures CollectionResult(results).message == JoinWith(CRLF, Map(MessageOf, ShownResults(results)))
  {
    var shown := ShownResults(results);
    var lines := Map(MessageOf, shown);
    forall i | 0 <= i < |lines| ensures Unterminated(lines[i]) {
      assert lines[i] == shown[i].message && shown[i] in shown;
    }
    JoinLinesIsJoin(lines);
  }

  /** One shown property's text: its name, CRLF, then its result's message. */
  function NameAndMessage(p: PropertyValidation): string
  {
    p.property + CRLF + p.result.message
  }

  /**
   * When every shown property has an unterminated name and message, an object's
   * message is the shown properties' "name CRLF message" texts separated by CRLF.
   */
  lemma {:induction false} ObjectMessageIsJoin(properties: seq<PropertyValidation>)
    requires forall p | p in ShownProperties(properties) :: Unterminated(p.property) && Unterminated(p.result.message)
    ensures ObjectResult(properties).message == JoinWith(CRLF, Map(NameAndMessage, ShownProperties(properties)))
  {
    var shown := ShownProperties(properties);
    var lines := Map(LabelledMessage, shown);
    forall i | 0 <= i < |lines| ensures Unterminated(lines[i]) && lines[i] == NameAndMessage(shown[i]) {
      var p := shown[i];
      assert p in shown;
      LabelledLine(p.property, p.result);
      assert EndsWithCrlf(p.property + CRLF) by { assert (p.property + CRLF)[|p.property + CRLF| - 2..] == CRLF; }
      UnterminatedAfter(p.property + CRLF, p.result.message);
    }
    assert lines == Map(NameAndMessage, shown);
    JoinLinesIsJoin(lines);
  }
}
