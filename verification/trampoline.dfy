/**
 * The run-time half of tail-call elimination (tco.py): the trampoline that
 * keeps invoking while a step hands back a tagged call tuple, the global
 * "in trampoline" flag, and the decorator that chooses between starting a
 * trampoline and handing the tagged tuple to the one already running.
 *
 * The user function cannot be seen, so invoking it is a parameter: given the
 * flag's value at the moment of the call and the call's parts, it yields the
 * value the call returns. A fuel bound stands for termination of that code.
 */
module Trampoline {

  /** Tag of a tuple returned in place of a tail call whose result is returned. */
  const CallTag: string := "macropy-tco-call"
  /** Tag of a tuple returned in place of a tail call whose result is discarded. */
  const IgnoreTag: string := "macropy-tco-ignore"

  /**
   * The Python values a step can return. This is the trampoline's own view
   * of values, separate from `CaseRuntime.Value`.
   */
  datatype Value =
    | NoneV
    | IntV(i: int)
    | StrV(s: string)
    | TupleV(items: seq<Value>)
    | ListV(items: seq<Value>)
    | DictV(keys: seq<string>, vals: seq<Value>)
    | FuncV(name: string)

  /** One invocation `func(*(list(args) + varargs), **kwargs)`. */
  datatype Bundle = Bundle(func: Value, args: Value, varargs: Value, kwargs: Value)

  /** How the trampoline's `switch` reads a step's return value. */
  datatype Step =
    | TailCall(next: Bundle)
    | TailIgnore(next: Bundle)
    | Final(value: Value)

  /** Invoking a bundle while the global flag has the given value. */
  type Invoke = (bool, Bundle) -> Value

  datatype Outcome = Returned(value: Value) | OutOfFuel

  /** A 5-tuple whose first element is the string `tag`. */
  predicate IsTagged(v: Value, tag: string) {
    v.TupleV? && |v.items| == 5 && v.items[0] == StrV(tag)
  }

  /**
   * The `switch` on a step result: a 5-tuple tagged as a call or as an
   * ignored call continues the loop with its other four elements; anything
   * else is the final value.
   */
  function Classify(v: Value): (s: Step)
    ensures s.TailCall? <==> IsTagged(v, CallTag)
    ensures s.TailIgnore? <==> IsTagged(v, IgnoreTag)
    ensures s.Final? ==> s.value == v
    ensures !s.Final? ==> s.next == Bundle(v.items[1], v.items[2], v.items[3], v.items[4])
  {
    if IsTagged(v, CallTag) then TailCall(Bundle(v.items[1], v.items[2], v.items[3], v.items[4]))
    else if IsTagged(v, IgnoreTag) then TailIgnore(Bundle(v.items[1], v.items[2], v.items[3], v.items[4]))
    else Final(v)
  }

  /** The value a rewritten `return (tag, func, args, varargs, kwargs)` hands back for a step. */
  function Encode(s: Step): Value {
    match s
    case TailCall(b) => TupleV([StrV(CallTag), b.func, b.args, b.varargs, b.kwargs])
    case TailIgnore(b) => TupleV([StrV(IgnoreTag), b.func, b.args, b.varargs, b.kwargs])
    case Final(v) => v
  }

  /**
   * The trampoline reads back exactly the step that was returned, as long as
   * a final value is not itself a tagged 5-tuple.
   */
  lemma ClassifyEncode(s: Step)
    requires s.Final? ==> !IsTagged(s.value, CallTag) && !IsTagged(s.value, IgnoreTag)
    ensures Classify(Encode(s)) == s
  {
    assert CallTag != IgnoreTag by {
      assert CallTag[13] != IgnoreTag[13];
    }
  }

  // ---------------------------------------------------------------------------
  // The loop

  /**
   * The `while True` loop after `_enter_trampoline()`, with at most `fuel`
   * invocations; every invocation sees the flag set.
   */
  function Loop(invoke: Invoke, ignoring: bool, b: Bundle, fuel: nat): Outcome
    decreases fuel
  {
    if fuel == 0 then OutOfFuel
    else
      match Classify(invoke(true, b))
      case TailCall(next) => Loop(invoke, ignoring, next, fuel - 1)
      case TailIgnore(next) => Loop(invoke, true, next, fuel - 1)
      case Final(v) => Returned(if ignoring then NoneV else v)
  }

  /** `trampoline(func, args, varargs, kwargs)`. */
  function Run(invoke: Invoke, start: Bundle, fuel: nat): Outcome {
    Loop(invoke, false, start, fuel)
  }

  // ---------------------------------------------------------------------------
  // Reference: the chain of invocations

  /** The bundle of the `n`-th invocation; a final step ends the chain where it is. */
  function Chain(invoke: Invoke, b: Bundle, n: nat): Bundle
    decreases n
  {
    if n == 0 then b
    else
      match Classify(invoke(true, b))
      case Final(_) => b
      case TailCall(next) => Chain(invoke, next, n - 1)
      case TailIgnore(next) => Chain(invoke, next, n - 1)
  }

  /** The step the `i`-th invocation returns. */
  function StepAt(invoke: Invoke, b: Bundle, i: nat): Step {
    Classify(invoke(true, Chain(invoke, b, i)))
  }

  /** Invocations `0 .. n-1` all continued the loop. */
  predicate ContinuesFor(invoke: Invoke, b: Bundle, n: nat) {
    forall i: nat :: i < n ==> !StepAt(invoke, b, i).Final?
  }

  /** Some invocation before the `n`-th asked for its result to be ignored. */
  predicate IgnoredBefore(invoke: Invoke, b: Bundle, n: nat) {
    exists i: nat :: i < n && StepAt(invoke, b, i).TailIgnore?
  }

  /** The value the trampoline returns when invocation `n` is the first final one. */
  function Answer(invoke: Invoke, ignoring: bool, b: Bundle, n: nat): Value
    requires StepAt(invoke, b, n).Final?
  {
    if ignoring || IgnoredBefore(invoke, b, n) then NoneV else StepAt(invoke, b, n).value
  }

  lemma {:induction false} LoopReturns(invoke: Invoke, ignoring: bool, b: Bundle, fuel: nat, n: nat)
    requires n < fuel && ContinuesFor(invoke, b, n) && StepAt(invoke, b, n).Final?
    ensures Loop(invoke, ignoring, b, fuel) == Returned(Answer(invoke, ignoring, b, n))
    decreases n
  {
    if n > 0 {
      assert !StepAt(invoke, b, 0).Final?;
      var s := Classify(invoke(true, b));
      var next := s.next;
      var ign := ignoring || s.TailIgnore?;
      forall i: nat | i < n - 1
        ensures StepAt(invoke, next, i) == StepAt(invoke, b, i + 1)
      {
        assert Chain(invoke, b, i + 1) == Chain(invoke, next, i);
      }
      assert Chain(invoke, b, n) == Chain(invoke, next, n - 1);
      assert ContinuesFor(invoke, next, n - 1) by {
        forall i: nat | i < n - 1 ensures !StepAt(invoke, next, i).Final? {
          assert !StepAt(invoke, b, i + 1).Final?;
        }
      }
      LoopReturns(invoke, ign, next, fuel - 1, n - 1);
      assert IgnoredBefore(invoke, b, n) <==> s.TailIgnore? || IgnoredBefore(invoke, next, n - 1) by {
        if IgnoredBefore(invoke, next, n - 1) {
          var i: nat :| i < n - 1 && StepAt(invoke, next, i).TailIgnore?;
          assert StepAt(invoke, b, i + 1).TailIgnore?;
        }
        if IgnoredBefore(invoke, b, n) && !s.TailIgnore? {
          var i: nat :| i < n && StepAt(invoke, b, i).TailIgnore?;
          assert i != 0;
          assert StepAt(invoke, next, i - 1).TailIgnore?;
        }
      }
    }
  }

  /**
   * The trampoline against its reference: when invocations `0 .. n-1`
   * continue and invocation `n` (within the fuel) is final, it returns that
   * final value, or `None` if any earlier step was an ignored call.
   */
  lemma RunReturns(invoke: Invoke, start: Bundle, fuel: nat, n: nat)
    requires n < fuel && ContinuesFor(invoke, start, n) && StepAt(invoke, start, n).Final?
    ensures Run(invoke, start, fuel) == Returned(
              if IgnoredBefore(invoke, start, n) then NoneV else StepAt(invoke, start, n).value)
  {
    LoopReturns(invoke, false, start, fuel, n);
  }

  lemma {:induction false} LoopReturnedHasFinal(invoke: Invoke, ignoring: bool, b: Bundle, fuel: nat)
    requires Loop(invoke, ignoring, b, fuel).Returned?
    ensures exists n: nat :: n < fuel && ContinuesFor(invoke, b, n) && StepAt(invoke, b, n).Final?
    decreases fuel
  {
    var s := Classify(invoke(true, b));
    if s.Final? {
      assert StepAt(invoke, b, 0).Final?;
      assert ContinuesFor(invoke, b, 0);
    } else {
      var next := s.next;
      LoopReturnedHasFinal(invoke, ignoring || s.TailIgnore?, next, fuel - 1);
      var n: nat :| n < fuel - 1 && ContinuesFor(invoke, next, n) && StepAt(invoke, next, n).Final?;
      forall i: nat | i <= n
        ensures StepAt(invoke, next, i) == StepAt(invoke, b, i + 1)
      {
        assert Chain(invoke, b, i + 1) == Chain(invoke, next, i);
      }
      assert StepAt(invoke, b, n + 1).Final?;
      assert ContinuesFor(invoke, b, n + 1) by {
        forall i: nat | i < n + 1 ensures !StepAt(invoke, b, i).Final? {
          if i > 0 {
            assert !StepAt(invoke, next, i - 1).Final?;
          }
        }
      }
    }
  }

  /**
   * Conversely, a trampoline that returns has met a final step within the
   * fuel after only continuing steps, and returns what `RunReturns` says.
   */
  lemma RunReturnedHasFinal(invoke: Invoke, start: Bundle, fuel: nat)
    requires Run(invoke, start, fuel).Returned?
    ensures exists n: nat :: n < fuel && ContinuesFor(invoke, start, n) && StepAt(invoke, start, n).Final?
              && Run(invoke, start, fuel).value ==
                 (if IgnoredBefore(invoke, start, n) then NoneV else StepAt(invoke, start, n).value)
  {
    LoopReturnedHasFinal(invoke, false, start, fuel);
    var n: nat :| n < fuel && ContinuesFor(invoke, start, n) && StepAt(invoke, start, n).Final?;
    RunReturns(invoke, start, fuel, n);
  }

  /** Once a step was an ignored call, the run can only return `None`. */
  lemma {:induction false} IgnoringIsSticky(invoke: Invoke, b: Bundle, fuel: nat)
    ensures Loop(invoke, true, b, fuel) == OutOfFuel || Loop(invoke, true, b, fuel) == Returned(NoneV)
    decreases fuel
  {
    if fuel > 0 {
      var s := Classify(invoke(true, b));
      if !s.Final? {
        IgnoringIsSticky(invoke, s.next, fuel - 1);
      }
    }
  }

  // ---------------------------------------------------------------------------
  // The loop as the source writes it, with the global flag

  /**
   * `trampoline` step by step: `_enter_trampoline()`, invoke with the current
   * flag, then rebind or finish; `_exit_trampoline()` before returning.
   * `observed` records the flag each invocation saw.
   */
  method Trampoline(invoke: Invoke, start: Bundle, fuel: nat) returns (out: Outcome, flag: bool, observed: seq<bool>)
    ensures out == Run(invoke, start, fuel)
    ensures out.Returned? ==> !flag
    ensures out.OutOfFuel? ==> flag
    ensures |observed| <= fuel
    ensures forall i :: 0 <= i < |observed| ==> observed[i]
  {
    flag := true;
    var ignoring := false;
    var b := start;
    var left: nat := fuel;
    observed := [];
    while left > 0
      invariant flag
      invariant left <= fuel && |observed| == fuel - left
      invariant forall i :: 0 <= i < |observed| ==> observed[i]
      invariant Loop(invoke, ignoring, b, left) == Run(invoke, start, fuel)
      decreases left
    {
      var result := invoke(flag, b);
      observed := observed + [flag];
      assert Loop(invoke, ignoring, b, left) == Run(invoke, start, fuel);
      left := left - 1;
      match Classify(result)
      case TailCall(next) =>
        b := next;
      case TailIgnore(next) =>
        ignoring := true;
        b := next;
      case Final(v) =>
        flag := false;
        out := Returned(if ignoring then NoneV else v);
        return;
    }
    out := OutOfFuel;
  }

  // ---------------------------------------------------------------------------
  // The decorator

  /** The invocation a decorated call `f(*args, **kwargs)` makes: no extra varargs. */
  function CallBundle(func: Value, args: seq<Value>, kwargs: Value): Bundle {
    Bundle(func, TupleV(args), ListV([]), kwargs)
  }

  /**
   * Calling a function decorated with `trampoline_decorator` while the flag
   * is `flag`: outside a trampoline it starts one from the call; inside one
   * it calls the function directly, so a tagged tuple goes back to the
   * running loop. Yields the outcome and the flag afterwards.
   */
  method Decorated(flag: bool, invoke: Invoke, func: Value, args: seq<Value>, kwargs: Value, fuel: nat)
    returns (out: Outcome, after: bool)
    ensures !flag ==> out == Run(invoke, CallBundle(func, args, kwargs), fuel)
    ensures !flag ==> (out.Returned? <==> !after)
    ensures flag ==> out == Returned(invoke(true, CallBundle(func, args, kwargs))) && after
  {
    var b := CallBundle(func, args, kwargs);
    if !flag {
      var observed;
      out, after, observed := Trampoline(invoke, b, fuel);
    } else {
      out := Returned(invoke(flag, b));
      after := flag;
    }
  }

  /**
   * Outside a trampoline, a decorated call whose `n`-th step is the first
   * final one returns that step's value (or `None` after an ignored call)
   * and leaves the flag clear.
   */
  method DecoratedOutside(invoke: Invoke, func: Value, args: seq<Value>, kwargs: Value, fuel: nat, n: nat)
    returns (out: Outcome, after: bool)
    requires n < fuel
    requires ContinuesFor(invoke, CallBundle(func, args, kwargs), n)
    requires StepAt(invoke, CallBundle(func, args, kwargs), n).Final?
    ensures out == Returned(
              if IgnoredBefore(invoke, CallBundle(func, args, kwargs), n) then NoneV
              else StepAt(invoke, CallBundle(func, args, kwargs), n).value)
    ensures !after
  {
    out, after := Decorated(false, invoke, func, args, kwargs, fuel);
    RunReturns(invoke, CallBundle(func, args, kwargs), fuel, n);
  }

  /**
   * Inside a trampoline the decorated call returns the function's raw step,
   * leaving the flag set; a tail call it makes reaches the running loop as
   * that very call.
   */
  method DecoratedInside(invoke: Invoke, func: Value, args: seq<Value>, kwargs: Value, fuel: nat, next: Bundle)
    returns (out: Outcome, after: bool)
    requires invoke(true, CallBundle(func, args, kwargs)) == Encode(TailCall(next))
    ensures out.Returned? && after
    ensures Classify(out.value) == TailCall(next)
  {
    out, after := Decorated(true, invoke, func, args, kwargs, fuel);
    ClassifyEncode(TailCall(next));
  }
}
