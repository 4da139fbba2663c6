# condval — a Dafny model of the rule-tree engine

`condval` evaluates a tree of condition/result rules against a map of named
parameters. A configuration (`ConditionValueConfig`) is an ordered list of
rules (`ConditionValue`). Each rule has a condition expression and a result.
A result is either a nested configuration or a literal value.

Evaluation scans the rules in order and runs each condition through an
expression library. The first condition that yields `true` decides:
- a nested result is evaluated recursively;
- a literal string is tried as an expression, and is returned verbatim if that fails;
- any other literal is returned unchanged.

Evaluation also returns the trace of indices it took, one per level. The
package can also build a configuration from JSON, turning arrays in result
position into nested configurations, and compare two configurations
structurally.

## Files

- `values.dfy` (`Values`): the dynamic value type that stands for Go's
  `interface{}` (decoded JSON and parameter values), the parameter map, and
  `Result`.
- `condval.dfy` (`CondVal`): the rule tree, the package's sentinel errors, and
  the boundary to the expression library (`Runner`, `TryRunCode`).
- `evaluate.dfy` (`Evaluation`): `GetResultWithTrace` as a method with a
  loop, proved equal to the recursive specification `Evaluate`. `GetResult`
  calls it and drops the trace. The evaluation properties are proved as
  lemmas about `Evaluate`.
- `equal.dfy` (`Compare`): `Equal`, a recursive predicate proved to hold
  exactly for identical configurations.
- `parse.dfy` (`Parse`): `ParseConditionValueConfig` as a loop method, proved
  equal to the recursive specification `Build`. It comes with the builder's
  properties and the round trip from a tree to its serialized form and back.
- `scenarios.dfy` (`Scenarios`): cases from the package's test table, stated
  over the model.

Modelling decisions:
- The expression library (compile, then run) is a function-valued parameter
  `run: (string, Env) -> Outcome`. It returns a value, `CompileFailed` or
  `RunFailed`. The model assumes only that it is a deterministic,
  side-effect-free function of the code and the parameters. The same `run`
  and the same parameters are passed to nested evaluations.
- A condition whose value is not a boolean makes the Go code panic at the
  type assertion on `result.(bool)`. The model turns this into an explicit
  error outcome, `ErrConditionNotBool`, which aborts the evaluation like the
  other condition errors.
- The builder starts from a decoded JSON value:
  - Decoding succeeds for `null`, which gives an empty configuration, or for
    an array whose elements are objects or `null`.
  - A `"condition"` field must be a string or `null`; absent or `null`
    means `""`.
  - An absent `"result"` field means `null`.
  - Anything else fails with `ErrParseJson`.
- Following the code: any failure of a nested build becomes `ErrSubResult`,
  whatever the inner error was.
- Following the code: a `null` input builds an empty configuration instead
  of failing.

## Model

| member | source | states |
|---|---|---|
| `CondVal.TryRunCode` | condval.go:40-50 | a compile failure becomes `ErrCompile`, a run failure `ErrRunCode`, and success gives the expression's value |
| `Evaluation.ResolveLiteral` | condval.go:67-74 | a string literal that runs as an expression yields that value; a string that fails to run is kept verbatim; any other literal is unchanged |
| `Evaluation.EvaluateFrom` | condval.go:52-78 | an evaluation fails only with `ErrNoCond`, `ErrCompile`, `ErrRunCode` or `ErrConditionNotBool`; on success the trace is non-empty and its first entry is an index at or after the scan start |
| `Evaluation.GetResultWithTrace` | condval.go:37-79 | the loop with early returns and recursion into nested configurations returns exactly `Evaluate(cvc, parameters, run)` |
| `Evaluation.GetResult` | condval.go:31-34 | succeeds exactly when the traced evaluation does, with the same value or the same error |
| `Evaluation.SkipFalseConditions` | condval.go:52-58 | rules whose condition runs to `false` are passed over: scanning from `i` equals scanning from `k` |
| `Evaluation.NoConditionMatched` | condval.go:78 | when every condition is false, including for an empty configuration, the result is `ErrNoCond` and never a default value |
| `Evaluation.ConditionFailureAborts` | condval.go:53-57 | the first condition that does not run to `false` and fails to compile or run aborts the evaluation with `ErrCompile` or `ErrRunCode`; it is not skipped |
| `Evaluation.NonBoolConditionAborts` | condval.go:58 | a decisive condition with a non-boolean value aborts with `ErrConditionNotBool` |
| `Evaluation.FirstMatchNested` | condval.go:58-66 | for the first true rule with a nested result, the nested evaluation decides: its trace is prefixed with the index, and its errors (`ErrNoCond` included) pass through unchanged with no trace |
| `Evaluation.FirstMatchLiteral` | condval.go:67-75 | for the first true rule with a literal result, the trace is `[k]`; the value is the string's expression value, or the string itself when it fails to run, or the literal unchanged |
| `Evaluation.LaterRulesNotEvaluated` | condval.go:52-77 | rules after the first decisive one are never evaluated: replacing them leaves the evaluation unchanged |
| `Evaluation.FoundFrom` | condval.go:52-76 | a successful scan's first trace entry is the first true rule after conditions that were all false; the rest of the trace is the nested trace, or empty for a literal |
| `Evaluation.TraceIsWinningPath` | condval.go:59-66 | success with value `v` and trace `t` holds exactly when `t` is a root-to-literal path of valid indices, each the first true rule at its level, and `v` is what that literal resolves to; so the trace length is the nesting depth of the winning path |
| `Compare.Equal` | condval.go:82-109 | true exactly when the configurations are identical: different lengths, a different condition at any position, or a nested result paired with a literal all give false |
| `Compare.EqualFrom` | condval.go:88-108 | the loop from position `i` holds exactly when the suffixes from `i` are identical |
| `Parse.DecodableEntry` | condval.go:124-132 | an array element decodes into a record when it is null (the zero record) or an object whose `"condition"` is absent, a string or null; any other element fails to decode |
| `Parse.Decodable` | condval.go:124-132 | the input decodes when it is null (an empty list) or an array whose every element decodes; any other value fails with `ErrParseJson` |
| `Parse.Entries` | condval.go:124-132 | the decoded records are the array's elements in order, and none for a null input |
| `Parse.ConditionField` | condval.go:124-132 | a record's condition is the `"condition"` string, or `""` when that field is absent or null or the element is null |
| `Parse.ResultField` | condval.go:124-132 | a record's result is the `"result"` value unchanged, or null (Go's nil) when that field is absent or the element is null |
| `Parse.Build` | condval.go:121-157 | `ErrParseJson` exactly when decoding fails; otherwise `ErrSubResult` or a tree with one rule per record and no array left as a literal |
| `Parse.BuildFrom` | condval.go:134-154 | the loop from record `i` fails only with `ErrSubResult`; on success it yields one rule per remaining record and no array literal |
| `Parse.ParseConditionValueConfig` | condval.go:121-157 | the append loop with recursive builds of array results returns exactly `Build(raw)`; an error returns no partial tree |
| `Parse.BuildFromAt` | condval.go:134-153 | rule `j` of the loop's output from `i` comes from record `i + j` |
| `Parse.BuildKeepsEntries` | condval.go:134-153 | rule `j` carries record `j`'s condition; its result is the nested build of record `j`'s result when that is an array, and the result unchanged otherwise |
| `Parse.BuildFromFails` | condval.go:135-143 | the loop from `i` fails exactly when some later record's nested build fails |
| `Parse.BuildErrors` | condval.go:129-143 | the build gives `ErrSubResult` exactly when decoding succeeds and some array result fails to build |
| `Parse.BuildSerialize` | condval.go:134-153 | building the model's serialized form of a tree with no array literals gives that same tree back, and `Equal` holds between the two; for every tree the builder can produce the round trip is exact |
| `Parse.BuildSerializeFrom` | condval.go:134-154 | the loop from `i` over a tree's serialized form rebuilds the tree's suffix from `i` |
| `Scenarios.BuildSimple` | condval_test.go:20 | one record with a number result builds one rule with that number as its literal |
| `Scenarios.BuildNested` | condval_test.go:21 | an array result builds a nested configuration |
| `Scenarios.EvaluateVarInResult` | condval_test.go:50 | a string result that runs as an expression yields its value |
| `Scenarios.EvaluateNested` | condval_test.go:51-53 | a matching nested rule gives the inner literal with trace `[0, 0]` |
| `Scenarios.EvaluateNoCondition` | condval_test.go:54 | a false only condition gives `ErrNoCond` |
| `Scenarios.EvaluateStringResult` | condval_test.go:55 | a string result that does not compile is returned verbatim with trace `[0]` |

## Left out

- The expression library (`expr.Compile`, `expr.Run`) is foreign code. It is the arbitrary function `run`, and its grammar, arithmetic and int/float coercions are not modelled.
- JSON text is not modelled. The builder starts from a decoded value, so `ErrParseJson` for malformed JSON text is covered only as "does not decode".
- The marshal-and-reparse of a nested array is direct recursion, so the "marshal failed" cause of `ErrSubResult` is absent. Marshalling decoded JSON cannot fail.
- Field names are matched exactly. Go's decoder also accepts case variants such as `"Condition"`, and lets the later of two duplicate keys win; a decoded object here is a map.
- Parse.Serialize: the serialized form is a decoded value, not JSON text. An `Int` literal, which only a hand-built tree can hold, comes back as `Int`, where real JSON would bring a Go `int` back as `float64`.
- Numbers are `real`, so float64 rounding, NaN and infinities are not modelled.
- `ParseConditionValueConfigFile` and `ErrLoadFile` (condval.go:112-118) are file I/O.
- The demo program, the coverage sweep and the fuzz target read a data file that is not part of this model.
- The diagnostic printing inside `Equal` is side-effect-only logging.
- Compare.Equal: `Value` merges Go's numeric kinds into `Int` and `Float`, and has no other dynamic types (float32, structs, pointers and other Go values a caller can place in a hand-built tree or that the expression library can return). On hand-built trees, Go's `!=` (condval.go:103) tells `int(2)` from `int64(2)` and `float32` from `float64` values, while the model's `Int(2) == Int(2)` holds, so the model's `Equal` can hold where Go's returns false. Trees built from JSON hold only decoded JSON values, which the model represents exactly, up to float64 rounding.
- Compare.Equal: when both literals are arrays, or both are objects, Go's `!=` on interface values panics (condval.go:103) and the model compares them as values; a mixed pair is unequal in both.
- Evaluation.GetResultWithTrace: the panic of the unchecked `bool` assertion (condval.go:58) is modelled as the error outcome `ErrConditionNotBool`, not as a crash.
- Expressions that are non-deterministic or keep state are not modelled. Examples are clock builtins such as `now()`, and function-valued parameters that keep state. A condition text that appears twice in one evaluation is taken to give the same outcome both times; Go's `expr` makes no such promise, so there the same text could be false at rule 0 and true at rule 1.
- Concurrency: evaluations share no mutable state and trees are immutable, so there is nothing to model.
