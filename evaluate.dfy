/** Evaluation of a configuration against a parameter map: depth-first,
    first match wins, recording the index taken at each level. */
module Evaluation {
  import opened Values
  import opened CondVal

  /** Outcome of `GetResultWithTrace`: a value with its trace, or an error
      (in which case the source returns a nil value and a nil trace). */
  datatype EvalResult = Found(value: Value, trace: seq<nat>) | Failed(err: Error)

  /** The errors an evaluation can end in. */
  predicate IsEvalError(e: Error) {
    e == ErrNoCond || e == ErrCompile || e == ErrRunCode || e == ErrConditionNotBool
  }

  /** What the condition of rule `i` runs to. */
  function Cond(cvc: ConditionValueConfig, i: nat, parameters: Env, run: Runner): (r: Result<Value, Error>)
    requires i < |cvc|
  {
    TryRunCode(run, cvc[i].conditionExpr, parameters)
  }

  /** What a chosen literal result yields: a string is tried as an
      expression and kept verbatim if that fails; anything else is returned
      as it is. */
  function ResolveLiteral(v: Value, parameters: Env, run: Runner): (r: Value)
    ensures v.Str? && run(v.s, parameters).Ran? ==> r == run(v.s, parameters).value
    ensures !(v.Str? && run(v.s, parameters).Ran?) ==> r == v
  {
    if v.Str? then
      match TryRunCode(run, v.s, parameters)
      case Ok(w) => w
      case Err(_) => v
    else v
  }

  /** The evaluation of `cvc`, starting the scan at rule `i`. */
  function EvaluateFrom(cvc: ConditionValueConfig, i: nat, parameters: Env, run: Runner): (r: EvalResult)
    requires i <= |cvc|
    ensures r.Failed? ==> IsEvalError(r.err)
    ensures r.Found? ==> |r.trace| > 0 && i <= r.trace[0] < |cvc|
    decreases cvc, |cvc| - i
  {
    if i == |cvc| then Failed(ErrNoCond)
    else
      match Cond(cvc, i, parameters, run)
      case Err(e) => Failed(e)
      case Ok(c) =>
        if !c.Bool? then Failed(ErrConditionNotBool)
        else if !c.b then EvaluateFrom(cvc, i + 1, parameters, run)
        else
          match cvc[i].result
          case Nested(sub) =>
            (match EvaluateFrom(sub, 0, parameters, run)
             case Failed(e) => Failed(e)
             case Found(v, t) => Found(v, [i] + t))
          case Literal(v) => Found(ResolveLiteral(v, parameters, run), [i])
  }

  /** The evaluation of a whole configuration. */
  function Evaluate(cvc: ConditionValueConfig, parameters: Env, run: Runner): (r: EvalResult) {
    EvaluateFrom(cvc, 0, parameters, run)
  }

  /** `GetResultWithTrace`: the loop over the rules with early returns,
      recursing into nested configurations. */
  method GetResultWithTrace(cvc: ConditionValueConfig, parameters: Env, run: Runner) returns (r: EvalResult)
    ensures r == Evaluate(cvc, parameters, run)
    decreases cvc
  {
    var trace: seq<nat> := [];
    for i := 0 to |cvc|
      invariant EvaluateFrom(cvc, i, parameters, run) == Evaluate(cvc, parameters, run)
      invariant trace == []
    {
      var cv := cvc[i];
      var result := TryRunCode(run, cv.conditionExpr, parameters);
      if result.Err? {
        return Failed(result.error);
      }
      if !result.value.Bool? {
        return Failed(ErrConditionNotBool);
      }
      if result.value.b {
        trace := trace + [i];
        match cv.result {
          case Nested(subCvc) =>
            var sub := GetResultWithTrace(subCvc, parameters, run);
            if sub.Failed? {
              return Failed(sub.err);
            }
            trace := trace + sub.trace;
            return Found(sub.value, trace);
          case Literal(v) =>
            if v.Str? {
              var subResult := TryRunCode(run, v.s, parameters);
              if subResult.Ok? {
                return Found(subResult.value, trace);
              }
            }
            return Found(v, trace);
        }
      }
    }
    return Failed(ErrNoCond);
  }

  /** `GetResult`: the same evaluation with the trace dropped. */
  method GetResult(cvc: ConditionValueConfig, parameters: Env, run: Runner) returns (r: Result<Value, Error>)
    ensures r.Ok? <==> Evaluate(cvc, parameters, run).Found?
    ensures r.Ok? ==> r.value == Evaluate(cvc, parameters, run).value
    ensures r.Err? ==> r.error == Evaluate(cvc, parameters, run).err
  {
    var ret := GetResultWithTrace(cvc, parameters, run);
    if ret.Found? {
      r := Ok(ret.value);
    } else {
      r := Err(ret.err);
    }
  }

  // ---------------------------------------------------------------------
  // Properties of the evaluation

  /** Every condition in [i, k) ran to `false`. */
  ghost predicate AllFalse(cvc: ConditionValueConfig, i: nat, k: nat, parameters: Env, run: Runner)
    requires k <= |cvc|
  {
    forall j :: i <= j < k ==> Cond(cvc, j, parameters, run) == Ok(Bool(false))
  }

  /** Rules whose condition runs to `false` are passed over: the scan from
      `i` gives what the scan from `k` gives. */
  lemma {:induction false} SkipFalseConditions(cvc: ConditionValueConfig, i: nat, k: nat, parameters: Env, run: Runner)
    requires i <= k <= |cvc|
    requires AllFalse(cvc, i, k, parameters, run)
    ensures EvaluateFrom(cvc, i, parameters, run) == EvaluateFrom(cvc, k, parameters, run)
    decreases k - i
  {
    if i < k {
      assert Cond(cvc, i, parameters, run) == Ok(Bool(false));
      SkipFalseConditions(cvc, i + 1, k, parameters, run);
    }
  }

  /** When no condition holds (in particular, for an empty configuration)
      the evaluation fails with `ErrNoCond`, never a default value. */
  lemma NoConditionMatched(cvc: ConditionValueConfig, parameters: Env, run: Runner)
    requires AllFalse(cvc, 0, |cvc|, parameters, run)
    ensures Evaluate(cvc, parameters, run) == Failed(ErrNoCond)
  {
    SkipFalseConditions(cvc, 0, |cvc|, parameters, run);
  }

  /** A condition that fails to compile or to run aborts the whole
      evaluation with that error; the rule is not skipped. */
  lemma ConditionFailureAborts(cvc: ConditionValueConfig, k: nat, parameters: Env, run: Runner)
    requires k < |cvc|
    requires AllFalse(cvc, 0, k, parameters, run)
    requires !run(cvc[k].conditionExpr, parameters).Ran?
    ensures run(cvc[k].conditionExpr, parameters).CompileFailed? ==>
              Evaluate(cvc, parameters, run) == Failed(ErrCompile)
    ensures run(cvc[k].conditionExpr, parameters).RunFailed? ==>
              Evaluate(cvc, parameters, run) == Failed(ErrRunCode)
  {
    SkipFalseConditions(cvc, 0, k, parameters, run);
  }

  /** A condition whose value is not a boolean aborts the evaluation (the
      source panics at this point). */
  lemma NonBoolConditionAborts(cvc: ConditionValueConfig, k: nat, parameters: Env, run: Runner)
    requires k < |cvc|
    requires AllFalse(cvc, 0, k, parameters, run)
    requires run(cvc[k].conditionExpr, parameters).Ran?
    requires !run(cvc[k].conditionExpr, parameters).value.Bool?
    ensures Evaluate(cvc, parameters, run) == Failed(ErrConditionNotBool)
  {
    SkipFalseConditions(cvc, 0, k, parameters, run);
  }

  /** The first rule whose condition holds, with a nested result: the
      nested evaluation decides; its trace is prefixed with `k`, and its
      errors (`ErrNoCond` included) are returned unchanged. */
  lemma FirstMatchNested(cvc: ConditionValueConfig, k: nat, parameters: Env, run: Runner)
    requires k < |cvc|
    requires AllFalse(cvc, 0, k, parameters, run)
    requires Cond(cvc, k, parameters, run) == Ok(Bool(true))
    requires cvc[k].result.Nested?
    ensures var sub := Evaluate(cvc[k].result.config, parameters, run);
            Evaluate(cvc, parameters, run) ==
              if sub.Found? then Found(sub.value, [k] + sub.trace) else Failed(sub.err)
  {
    SkipFalseConditions(cvc, 0, k, parameters, run);
  }

  /** The first rule whose condition holds, with a literal result: the
      trace is `[k]`; a string that runs as an expression yields that
      expression's value, a string that does not is returned verbatim with
      no error, and any other literal is returned unchanged. */
  lemma FirstMatchLiteral(cvc: ConditionValueConfig, k: nat, parameters: Env, run: Runner)
    requires k < |cvc|
    requires AllFalse(cvc, 0, k, parameters, run)
    requires Cond(cvc, k, parameters, run) == Ok(Bool(true))
    requires cvc[k].result.Literal?
    ensures var r := Evaluate(cvc, parameters, run);
            var v := cvc[k].result.value;
            r.Found? && r.trace == [k] &&
            (v.Str? && run(v.s, parameters).Ran? ==> r.value == run(v.s, parameters).value) &&
            (v.Str? && !run(v.s, parameters).Ran? ==> r.value == v) &&
            (!v.Str? ==> r.value == v)
  {
    SkipFalseConditions(cvc, 0, k, parameters, run);
  }

  /** Rules after the first decisive one (the first whose condition does
      not run to `false`) are never evaluated: replacing them changes
      nothing. */
  lemma LaterRulesNotEvaluated(cvc: ConditionValueConfig, k: nat, rest: ConditionValueConfig, parameters: Env, run: Runner)
    requires k < |cvc|
    requires AllFalse(cvc, 0, k, parameters, run)
    requires Cond(cvc, k, parameters, run) != Ok(Bool(false))
    ensures Evaluate(cvc[..k + 1] + rest, parameters, run) == Evaluate(cvc, parameters, run)
  {
    var other := cvc[..k + 1] + rest;
    assert forall j :: 0 <= j <= k ==> other[j] == cvc[j];
    assert forall j :: 0 <= j < k ==> Cond(other, j, parameters, run) == Cond(cvc, j, parameters, run);
    assert AllFalse(other, 0, k, parameters, run);
    SkipFalseConditions(cvc, 0, k, parameters, run);
    SkipFalseConditions(other, 0, k, parameters, run);
  }

  // ---------------------------------------------------------------------
  // The trace

  /** `t` follows valid indices from the root of `cvc` down to a literal
      result: one entry per nesting level, ending at the first literal. */
  ghost predicate IsPath(cvc: ConditionValueConfig, t: seq<nat>)
    decreases cvc
  {
    |t| > 0 && t[0] < |cvc| &&
    match cvc[t[0]].result
    case Nested(sub) => IsPath(sub, t[1..])
    case Literal(_) => |t| == 1
  }

  /** The literal result a path ends at. */
  ghost function Leaf(cvc: ConditionValueConfig, t: seq<nat>): Value
    requires IsPath(cvc, t)
    decreases cvc
  {
    match cvc[t[0]].result
    case Nested(sub) => Leaf(sub, t[1..])
    case Literal(v) => v
  }

  /** At every level of path `t`, the rule taken is the first whose
      condition holds: all earlier conditions ran to `false`. */
  ghost predicate Chosen(cvc: ConditionValueConfig, t: seq<nat>, parameters: Env, run: Runner)
    requires IsPath(cvc, t)
    decreases cvc
  {
    AllFalse(cvc, 0, t[0], parameters, run) &&
    Cond(cvc, t[0], parameters, run) == Ok(Bool(true)) &&
    match cvc[t[0]].result
    case Nested(sub) => Chosen(sub, t[1..], parameters, run)
    case Literal(_) => true
  }

  /** What a successful scan from `i` returns, one level deep. */
  lemma {:induction false} FoundFrom(cvc: ConditionValueConfig, i: nat, parameters: Env, run: Runner)
    requires i <= |cvc|
    requires EvaluateFrom(cvc, i, parameters, run).Found?
    ensures var r := EvaluateFrom(cvc, i, parameters, run);
            var k := r.trace[0];
            AllFalse(cvc, i, k, parameters, run) &&
            Cond(cvc, k, parameters, run) == Ok(Bool(true)) &&
            match cvc[k].result
            case Nested(sub) => Evaluate(sub, parameters, run) == Found(r.value, r.trace[1..])
            case Literal(v) => r.trace == [k] && r.value == ResolveLiteral(v, parameters, run)
    decreases |cvc| - i
  {
    var r := EvaluateFrom(cvc, i, parameters, run);
    if Cond(cvc, i, parameters, run) == Ok(Bool(false)) {
      FoundFrom(cvc, i + 1, parameters, run);
    } else {
      match cvc[i].result
      case Nested(sub) =>
        var s := Evaluate(sub, parameters, run);
        assert r.trace[1..] == s.trace;
      case Literal(_) =>
    }
  }

  /** Trace shape, both directions: an evaluation succeeds with value `v`
      and trace `t` exactly when `t` is a root-to-literal path of valid
      indices, each the first rule at its level whose condition holds, and
      `v` is what that literal resolves to. In particular the trace is as
      long as the nesting depth of the winning path. */
  lemma {:induction false} TraceIsWinningPath(cvc: ConditionValueConfig, v: Value, t: seq<nat>, parameters: Env, run: Runner)
    ensures Evaluate(cvc, parameters, run) == Found(v, t) <==>
            IsPath(cvc, t) && Chosen(cvc, t, parameters, run) && v == ResolveLiteral(Leaf(cvc, t), parameters, run)
    decreases cvc
  {
    if Evaluate(cvc, parameters, run) == Found(v, t) {
      FoundFrom(cvc, 0, parameters, run);
      match cvc[t[0]].result
      case Nested(sub) => TraceIsWinningPath(sub, v, t[1..], parameters, run);
      case Literal(_) =>
    }
    if IsPath(cvc, t) && Chosen(cvc, t, parameters, run) && v == ResolveLiteral(Leaf(cvc, t), parameters, run) {
      var k := t[0];
      SkipFalseConditions(cvc, 0, k, parameters, run);
      match cvc[k].result
      case Nested(sub) =>
        TraceIsWinningPath(sub, v, t[1..], parameters, run);
        assert [k] + t[1..] == t;
      case Literal(_) =>
        assert t == [k];
    }
  }
}
