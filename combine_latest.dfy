/**
 * The combine-latest behaviour behind `collect` and `compose` of
 * src/ValidatorBuilder.ts. Each of n children emits validation results over
 * time; the order in which those emissions arrive is an explicit trace of
 * arrivals. One slot per child keeps that child's latest result. Nothing is
 * emitted until every slot holds a result; from then on every arrival emits
 * the mapper applied to all latest results, in declaration order.
 */
module CombineLatest {
  import opened Wrappers
  import opened Streams
  import opened ValidationResults

  /** Child `child` has emitted `result`. */
  datatype Arrival = Arrival(child: nat, result: ValidationResult)

  /** Every arrival comes from one of the n children. */
  predicate FromChildren(n: nat, trace: seq<Arrival>)
  {
    forall k | 0 <= k < |trace| :: trace[k].child < n
  }

  /** The results child i emitted, in order of arrival. */
  function Project(trace: seq<Arrival>, i: nat): (rs: seq<ValidationResult>)
    ensures |rs| <= |trace|
    decreases |trace|
  {
    if trace == [] then []
    else
      var last := trace[|trace| - 1];
      Project(trace[..|trace| - 1], i) + (if last.child == i then [last.result] else [])
  }

  // ---------------------------------------------------------------- specification

  /** The latest result of each slot after the arrivals of `trace`; None for a child not heard from. */
  function Latest(n: nat, trace: seq<Arrival>): (s: seq<Option<ValidationResult>>)
    requires FromChildren(n, trace)
    ensures |s| == n
    decreases |trace|
  {
    if trace == [] then seq(n, _ => None)
    else
      var last := trace[|trace| - 1];
      Latest(n, trace[..|trace| - 1])[last.child := Some(last.result)]
  }

  /** Every slot holds a result. */
  predicate Complete(s: seq<Option<ValidationResult>>)
  {
    forall i | 0 <= i < |s| :: s[i].Some?
  }

  /** The results of a complete set of slots, in slot order. */
  function Values(s: seq<Option<ValidationResult>>): (vs: seq<ValidationResult>)
    requires Complete(s)
    ensures |vs| == |s|
    ensures forall i | 0 <= i < |s| :: s[i] == Some(vs[i])
  {
    seq(|s|, i requires 0 <= i < |s| && Complete(s) => s[i].value)
  }

  /** What combine-latest emits for the arrivals of `trace`. */
  function Emitted(n: nat, mapper: seq<ValidationResult> -> ValidationResult, trace: seq<Arrival>)
    : (out: seq<ValidationResult>)
    requires FromChildren(n, trace)
    ensures |out| <= |trace|
    decreases |trace|
  {
    if trace == [] then []
    else
      var now := Latest(n, trace);
      Emitted(n, mapper, trace[..|trace| - 1]) + (if Complete(now) then [mapper(Values(now))] else [])
  }

  // ---------------------------------------------------------------- properties of the specification

  /** An arrival from child c overwrites slot c and leaves every other slot as it was. */
  lemma {:induction false} ArrivalUpdatesOneSlot(n: nat, trace: seq<Arrival>, a: Arrival, i: nat)
    requires FromChildren(n, trace) && a.child < n && i < n
    ensures FromChildren(n, trace + [a])
    ensures Latest(n, trace + [a])[i] == if i == a.child then Some(a.result) else Latest(n, trace)[i]
  {
    assert (trace + [a])[..|trace|] == trace;
  }

  /**
   * A slot holds a result exactly when its child has arrived, and then it
   * holds the result of that child's last arrival.
   */
  lemma {:induction false} LatestIsLastArrival(n: nat, trace: seq<Arrival>, i: nat)
    requires FromChildren(n, trace) && i < n
    ensures Latest(n, trace)[i].Some? <==> exists k | 0 <= k < |trace| :: trace[k].child == i
    ensures Latest(n, trace)[i].Some? ==>
      exists k | 0 <= k < |trace| :: trace[k].child == i && trace[k].result == Latest(n, trace)[i].value &&
        forall k' | k < k' < |trace| :: trace[k'].child != i
    decreases |trace|
  {
    if trace != [] {
      var prefix, last := trace[..|trace| - 1], trace[|trace| - 1];
      LatestIsLastArrival(n, prefix, i);
      assert forall k | 0 <= k < |prefix| :: prefix[k] == trace[k];
      if last.child == i {
        assert trace[|trace| - 1].child == i;
      } else if Latest(n, prefix)[i].Some? {
        var k :| 0 <= k < |prefix| && prefix[k].child == i && prefix[k].result == Latest(n, prefix)[i].value &&
          forall k' | k < k' < |prefix| :: prefix[k'].child != i;
        assert trace[k].child == i;
      } else {
        forall k | 0 <= k < |trace|
          ensures trace[k].child != i
        {
          if k < |prefix| {
            assert prefix[k].child != i;
          }
        }
      }
    }
  }

  /** Once a slot holds a result it keeps holding one, whatever arrives later. */
  lemma {:induction false} FilledStaysFilled(n: nat, trace: seq<Arrival>, more: seq<Arrival>, i: nat)
    requires FromChildren(n, trace) && FromChildren(n, more) && i < n
    requires Latest(n, trace)[i].Some?
    ensures FromChildren(n, trace + more)
    ensures Latest(n, trace + more)[i].Some?
    decreases |more|
  {
    assert forall k | 0 <= k < |trace + more| :: (trace + more)[k] in trace || (trace + more)[k] in more;
    if more == [] {
      assert trace + more == trace;
    } else {
      var front, last := more[..|more| - 1], more[|more| - 1];
      assert more == front + [last];
      assert trace + more == (trace + front) + [last];
      FilledStaysFilled(n, trace, front, i);
      ArrivalUpdatesOneSlot(n, trace + front, last, i);
    }
  }

  /** Completeness of the slots is never lost. */
  lemma {:induction false} CompleteStaysComplete(n: nat, trace: seq<Arrival>, more: seq<Arrival>)
    requires FromChildren(n, trace) && FromChildren(n, more)
    requires Complete(Latest(n, trace))
    ensures FromChildren(n, trace + more)
    ensures Complete(Latest(n, trace + more))
  {
    forall i | 0 <= i < n
      ensures Latest(n, trace + more)[i].Some?
    {
      FilledStaysFilled(n, trace, more, i);
    }
    if n == 0 {
      FilledStaysFilledAll(n, trace, more);
    }
  }

  lemma {:induction false} FilledStaysFilledAll(n: nat, trace: seq<Arrival>, more: seq<Arrival>)
    requires FromChildren(n, trace) && FromChildren(n, more)
    ensures FromChildren(n, trace + more)
  {
    assert forall k | 0 <= k < |trace + more| :: (trace + more)[k] in trace || (trace + more)[k] in more;
  }

  /** Nothing is emitted while some slot is still empty. */
  lemma {:induction false} SilentUntilComplete(n: nat, mapper: seq<ValidationResult> -> ValidationResult,
                                               trace: seq<Arrival>)
    requires FromChildren(n, trace)
    requires !Complete(Latest(n, trace))
    ensures Emitted(n, mapper, trace) == []
    decreases |trace|
  {
    if trace != [] {
      var prefix, last := trace[..|trace| - 1], trace[|trace| - 1];
      assert trace == prefix + [last];
      if Complete(Latest(n, prefix)) {
        CompleteStaysComplete(n, prefix, [last]);
        assert false;
      }
      SilentUntilComplete(n, mapper, prefix);
    }
  }

  /** A child that never emits keeps combine-latest silent. */
  lemma {:induction false} NeverArrivedSilent(n: nat, mapper: seq<ValidationResult> -> ValidationResult, trace: seq<Arrival>, i: nat)
    requires FromChildren(n, trace) && i < n
    requires Project(trace, i) == []
    ensures Emitted(n, mapper, trace) == []
  {
    NoArrivalWhenProjectEmpty(trace, i);
    LatestIsLastArrival(n, trace, i);
    SilentUntilComplete(n, mapper, trace);
  }

  lemma {:induction false} NoArrivalWhenProjectEmpty(trace: seq<Arrival>, i: nat)
    requires Project(trace, i) == []
    ensures forall k | 0 <= k < |trace| :: trace[k].child != i
    decreases |trace|
  {
    if trace != [] {
      var prefix := trace[..|trace| - 1];
      NoArrivalWhenProjectEmpty(prefix, i);
      assert forall k | 0 <= k < |prefix| :: prefix[k] == trace[k];
    }
  }

  /**
   * Once arrival k0 completes the slots, every arrival from k0 on emits
   * exactly one result: the mapper applied to the latest results just after
   * that arrival. So there are |trace| - k0 emissions.
   */
  lemma {:induction false} EmittedAfterComplete(n: nat, mapper: seq<ValidationResult> -> ValidationResult,
                                                trace: seq<Arrival>, k0: nat)
    requires FromChildren(n, trace) && k0 < |trace|
    requires Complete(Latest(n, trace[..k0 + 1])) && !Complete(Latest(n, trace[..k0]))
    ensures |Emitted(n, mapper, trace)| == |trace| - k0
    ensures forall m | k0 < m <= |trace| ::
      Complete(Latest(n, trace[..m])) &&
      Emitted(n, mapper, trace)[m - k0 - 1] == mapper(Values(Latest(n, trace[..m])))
    decreases |trace|
  {
    var prefix := trace[..|trace| - 1];
    assert trace[..|trace|] == trace;
    if |trace| == k0 + 1 {
      assert prefix == trace[..k0];
      SilentUntilComplete(n, mapper, prefix);
    } else {
      assert prefix[..k0 + 1] == trace[..k0 + 1] && prefix[..k0] == trace[..k0];
      EmittedAfterComplete(n, mapper, prefix, k0);
      CompleteAfterPrefix(n, trace, k0 + 1);
      var out, last := Emitted(n, mapper, trace), mapper(Values(Latest(n, trace)));
      assert out == Emitted(n, mapper, prefix) + [last];
      forall m | k0 < m <= |trace|
        ensures Complete(Latest(n, trace[..m])) && out[m - k0 - 1] == mapper(Values(Latest(n, trace[..m])))
      {
        if m < |trace| {
          assert trace[..m] == prefix[..m];
          assert out[m - k0 - 1] == Emitted(n, mapper, prefix)[m - k0 - 1];
        }
      }
    }
  }

  /** The emission of arrival m - 1, for one m, as EmittedAfterComplete states it for all. */
  lemma {:induction false} EmittedAt(n: nat, mapper: seq<ValidationResult> -> ValidationResult,
                                     trace: seq<Arrival>, k0: nat, m: nat)
    requires FromChildren(n, trace) && k0 < m <= |trace|
    requires Complete(Latest(n, trace[..k0 + 1])) && !Complete(Latest(n, trace[..k0]))
    ensures |Emitted(n, mapper, trace)| == |trace| - k0
    ensures Complete(Latest(n, trace[..m]))
    ensures Emitted(n, mapper, trace)[m - k0 - 1] == mapper(Values(Latest(n, trace[..m])))
  {
    EmittedAfterComplete(n, mapper, trace, k0);
  }

  /** Slots complete after a prefix of the trace are complete after all of it. */
  lemma {:induction false} CompleteAfterPrefix(n: nat, trace: seq<Arrival>, m: nat)
    requires FromChildren(n, trace) && m <= |trace|
    requires Complete(Latest(n, trace[..m]))
    ensures Complete(Latest(n, trace))
  {
    assert trace == trace[..m] + trace[m..];
    CompleteStaysComplete(n, trace[..m], trace[m..]);
  }

  /** With a single child, every arrival emits the mapper applied to that arrival alone. */
  lemma {:induction false} EmittedSingle(mapper: seq<ValidationResult> -> ValidationResult, trace: seq<Arrival>)
    requires FromChildren(1, trace)
    ensures Emitted(1, mapper, trace) == Map((r: ValidationResult) => mapper([r]), Project(trace, 0))
    decreases |trace|
  {
    if trace != [] {
      var prefix, last := trace[..|trace| - 1], trace[|trace| - 1];
      EmittedSingle(mapper, prefix);
      var now := Latest(1, trace);
      assert now == [Some(last.result)];
      assert Values(now) == [last.result];
      MapConcat((r: ValidationResult) => mapper([r]), Project(prefix, 0), [last.result]);
    }
  }

  /**
   * Two children that emit twice each, arriving child 0, child 1, child 0,
   * child 1: nothing until both have arrived, then one emission per arrival.
   */
  lemma {:induction false} InterleavedTwo(mapper: seq<ValidationResult> -> ValidationResult,
                                          a0: ValidationResult, a1: ValidationResult,
                                          b0: ValidationResult, b1: ValidationResult)
    ensures FromChildren(2, [Arrival(0, a0), Arrival(1, b0), Arrival(0, a1), Arrival(1, b1)])
    ensures Project([Arrival(0, a0), Arrival(1, b0), Arrival(0, a1), Arrival(1, b1)], 0) == [a0, a1]
    ensures Project([Arrival(0, a0), Arrival(1, b0), Arrival(0, a1), Arrival(1, b1)], 1) == [b0, b1]
    ensures Emitted(2, mapper, [Arrival(0, a0), Arrival(1, b0), Arrival(0, a1), Arrival(1, b1)])
      == [mapper([a0, b0]), mapper([a1, b0]), mapper([a1, b1])]
  {
    var trace := [Arrival(0, a0), Arrival(1, b0), Arrival(0, a1), Arrival(1, b1)];
    var t1, t2, t3 := trace[..1], trace[..2], trace[..3];
    assert t1[..0] == [] && t2[..1] == t1 && t3[..2] == t2 && trace[..3] == t3 && trace[..4] == trace;
    assert Latest(2, []) == [None, None];
    var l1, l2 := Latest(2, t1), Latest(2, t2);
    assert l1 == [Some(a0), None];
    assert l2 == [Some(a0), Some(b0)];
    var l3, l4 := Latest(2, t3), Latest(2, trace);
    assert l3 == [Some(a1), Some(b0)];
    assert l4 == [Some(a1), Some(b1)];
    assert !Complete(l1) by { assert l1[1] == None; }
    assert Project(t1, 0) == [a0] && Project(t2, 0) == [a0] && Project(t3, 0) == [a0, a1];
    assert Project(t1, 1) == [] && Project(t2, 1) == [b0] && Project(t3, 1) == [b0];
    EmittedAfterComplete(2, mapper, trace, 1);
    var out := Emitted(2, mapper, trace);
    assert out[0] == mapper(Values(l2)) && out[1] == mapper(Values(l3)) && out[2] == mapper(Values(l4));
    assert Values(l2) == [a0, b0] && Values(l3) == [a1, b0] && Values(l4) == [a1, b1];
  }

  // ---------------------------------------------------------------- the slots

  /** One slot per child: its latest result and whether it has one yet. */
  class LatestSlots {
    const size: nat
    const slots: array<ValidationResult>
    const filled: array<bool>

    ghost predicate Valid()
      reads this
    {
      slots.Length == size && filled.Length == size
    }

    /** The slots as optional results. */
    function State(): (s: seq<Option<ValidationResult>>)
      requires Valid()
      reads this, slots, filled
      ensures |s| == size
      ensures forall i | 0 <= i < size :: s[i].Some? == filled[i] && (filled[i] ==> s[i].value == slots[i])
    {
      seq(size, i requires 0 <= i < size && Valid() reads this, slots, filled =>
        if filled[i] then Some(slots[i]) else None)
    }

    /** n empty slots. */
    constructor(n: nat)
      ensures Valid() && size == n && fresh(slots) && fresh(filled)
      ensures State() == seq(n, _ => None)
    {
      size := n;
      slots := new ValidationResult[n](_ => SuccessResult());
      filled := new bool[n](_ => false);
    }

    /** Records an arrival in its child's slot. */
    method Arrive(a: Arrival)
      requires Valid() && a.child < size
      modifies slots, filled
      ensures Valid()
      ensures State() == old(State())[a.child := Some(a.result)]
    {
      slots[a.child] := a.result;
      filled[a.child] := true;
    }

    /** Whether every slot holds a result. */
    method AllFilled() returns (all: bool)
      requires Valid()
      ensures all <==> Complete(State())
    {
      all := true;
      var i := 0;
      while i < size
        invariant 0 <= i <= size
        invariant all <==> forall j | 0 <= j < i :: filled[j]
      {
        all := all && filled[i];
        i := i + 1;
      }
    }

    /** The latest result of every slot, in slot order. */
    method Snapshot() returns (results: seq<ValidationResult>)
      requires Valid() && Complete(State())
      ensures results == Values(State())
    {
      results := [];
      for i := 0 to size
        invariant |results| == i
        invariant forall j | 0 <= j < i :: results[j] == slots[j]
      {
        results := results + [slots[i]];
      }
    }
  }

  /** Runs combine-latest over the arrivals of `trace`, one arrival at a time. */
  method Run(n: nat, mapper: seq<ValidationResult> -> ValidationResult, trace: seq<Arrival>)
    returns (out: seq<ValidationResult>)
    requires FromChildren(n, trace)
    ensures out == Emitted(n, mapper, trace)
  {
    var latest := new LatestSlots(n);
    out := [];
    for k := 0 to |trace|
      invariant latest.Valid() && latest.size == n
      invariant FromChildren(n, trace[..k])
      invariant latest.State() == Latest(n, trace[..k])
      invariant out == Emitted(n, mapper, trace[..k])
    {
      latest.Arrive(trace[k]);
      assert trace[..k + 1][..k] == trace[..k];
      var all := latest.AllFilled();
      if all {
        var snapshot := latest.Snapshot();
        out := out + [mapper(snapshot)];
      }
    }
    assert trace[..|trace|] == trace;
  }
}
