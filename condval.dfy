/** The rule tree of condval.go: configurations, their results, the
    package's error values and the boundary to the expression library. */
module CondVal {
  import opened Values

  /** One rule: a condition expression and what it yields when the
      condition is the first one to hold. */
  datatype ConditionValue = ConditionValue(conditionExpr: string, result: Res)

  /** A rule's result is either a nested configuration or a literal value.
      A literal string is additionally tried as an expression when the rule
      is chosen. */
  datatype Res =
    | Nested(config: ConditionValueConfig)
    | Literal(value: Value)

  /** An ordered rule list; order is priority (first match wins). */
  type ConditionValueConfig = seq<ConditionValue>

  /** The package's sentinel errors. `ErrConditionNotBool` stands for the
      run-time panic of the unchecked `bool` assertion on a condition's
      value; the other names are those of the source. */
  datatype Error =
    | ErrNoCond
    | ErrCompile
    | ErrRunCode
    | ErrConditionNotBool
    | ErrParseJson
    | ErrSubResult

  /** What the expression library does with one source string against one
      parameter map: compilation fails, execution fails, or a value results. */
  datatype Outcome = Ran(value: Value) | CompileFailed | RunFailed

  /** The expression library (compile, then run), taken as an arbitrary
      total function: the model assumes nothing about its grammar. */
  type Runner = (string, Env) -> Outcome

  /** The `tryRunCode` closure: compile-and-run `code` against
      `parameters`, mapping the library's two failures to the package's
      two sentinel errors. */
  function TryRunCode(run: Runner, code: string, parameters: Env): (r: Result<Value, Error>)
    ensures r.Ok? <==> run(code, parameters).Ran?
    ensures r.Ok? ==> r.value == run(code, parameters).value
    ensures r == Err(ErrCompile) <==> run(code, parameters).CompileFailed?
    ensures r == Err(ErrRunCode) <==> run(code, parameters).RunFailed?
  {
    match run(code, parameters)
    case CompileFailed => Err(ErrCompile)
    case RunFailed => Err(ErrRunCode)
    case Ran(v) => Ok(v)
  }
}
