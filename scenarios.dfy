/** Worked cases of the package's own test table, stated over the model.
    What the expression library does with each source string is given as
    a precondition on the runner. */
module Scenarios {
  import opened Values
  import opened CondVal
  import opened Evaluation
  import opened Parse

  /** `[{"condition":"a > 1","result":2}]` builds one rule with the
      decoded number as its literal result. */
  lemma BuildSimple()
    ensures Build(Arr([Obj(map["condition" := Str("a > 1"), "result" := Float(2.0)])])) ==
            Ok([ConditionValue("a > 1", Literal(Float(2.0)))])
  {
    var e := Obj(map["condition" := Str("a > 1"), "result" := Float(2.0)]);
    assert DecodableEntry(e);
    assert Decodable(Arr([e]));
    assert ConditionField(e) == "a > 1" && ResultField(e) == Float(2.0);
    assert BuildFrom(Arr([e]), 1) == Ok([]);
    var cv := ConditionValue("a > 1", Literal(Float(2.0)));
    assert [cv] + [] == [cv];
    assert BuildFrom(Arr([e]), 0) == Ok([ConditionValue("a > 1", Literal(Float(2.0)))]);
  }

  /** An array in result position builds a nested configuration. */
  lemma BuildNested()
    ensures var inner := Arr([Obj(map["condition" := Str("a > 2"), "result" := Float(2.0)])]);
            Build(Arr([Obj(map["condition" := Str("a > 1"), "result" := inner])])) ==
            Ok([ConditionValue("a > 1", Nested([ConditionValue("a > 2", Literal(Float(2.0)))]))])
  {
    var leaf := Obj(map["condition" := Str("a > 2"), "result" := Float(2.0)]);
    var inner := Arr([leaf]);
    assert DecodableEntry(leaf) && Decodable(inner);
    assert ConditionField(leaf) == "a > 2" && ResultField(leaf) == Float(2.0);
    assert BuildFrom(inner, 1) == Ok([]);
    var cv := ConditionValue("a > 2", Literal(Float(2.0)));
    assert [cv] + [] == [cv];
    assert BuildFrom(inner, 0) == Ok([ConditionValue("a > 2", Literal(Float(2.0)))]);
    var outer := Obj(map["condition" := Str("a > 1"), "result" := inner]);
    assert DecodableEntry(outer) && Decodable(Arr([outer]));
    assert ConditionField(outer) == "a > 1" && ResultField(outer) == inner;
    assert BuildFrom(Arr([outer]), 1) == Ok([]);
    var top := ConditionValue("a > 1", Nested([cv]));
    assert [top] + [] == [top];
    assert BuildFrom(Arr([outer]), 0) ==
           Ok([ConditionValue("a > 1", Nested([ConditionValue("a > 2", Literal(Float(2.0)))]))]);
  }

  /** A nested rule that matches: trace `[0, 0]`. */
  lemma EvaluateNested(parameters: Env, run: Runner)
    requires run("a > 1 && b < 0", parameters) == Ran(Bool(true))
    requires run("a >=2", parameters) == Ran(Bool(true))
    ensures Evaluate([ConditionValue("a > 1 && b < 0", Nested([ConditionValue("a >=2", Literal(Int(4)))]))], parameters, run) ==
            Found(Int(4), [0, 0])
  {
  }

  /** A string result that runs as an expression yields its value. */
  lemma EvaluateVarInResult(parameters: Env, run: Runner)
    requires run("a > 1 && b < 0", parameters) == Ran(Bool(true))
    requires run("a*2", parameters) == Ran(Int(4))
    ensures Evaluate([ConditionValue("a > 1 && b < 0", Literal(Str("a*2")))], parameters, run) == Found(Int(4), [0])
  {
  }

  /** A string result that does not compile is returned verbatim. */
  lemma EvaluateStringResult(parameters: Env, run: Runner)
    requires run("a > 1", parameters) == Ran(Bool(true))
    requires run("abc", parameters) == CompileFailed
    ensures Evaluate([ConditionValue("a > 1", Literal(Str("abc")))], parameters, run) == Found(Str("abc"), [0])
  {
  }

  /** The only condition is false: `ErrNoCond`. */
  lemma EvaluateNoCondition(parameters: Env, run: Runner)
    requires run("a > 1", parameters) == Ran(Bool(false))
    ensures Evaluate([ConditionValue("a > 1", Literal(Int(2)))], parameters, run) == Failed(ErrNoCond)
  {
  }
}
