/** Structural comparison of two configurations (`Equal`). */
module Compare {
  import opened CondVal

  /** `Equal`: same length, and pairwise the same condition strings and
      equal results. A nested result equals only a nested result with an
      equal configuration; a literal equals only the same literal. Equal
      configurations are exactly the identical ones. */
  function Equal(cvc: ConditionValueConfig, another: ConditionValueConfig): (r: bool)
    ensures r <==> cvc == another
    decreases cvc, |cvc| + 1
  {
    |cvc| == |another| && EqualFrom(cvc, another, 0)
  }

  /** The loop of `Equal` from position `i` on. */
  function EqualFrom(cvc: ConditionValueConfig, another: ConditionValueConfig, i: nat): (r: bool)
    requires |cvc| == |another| && i <= |cvc|
    ensures r <==> cvc[i..] == another[i..]
    decreases cvc, |cvc| - i
  {
    if i == |cvc| then true
    else if cvc[i].conditionExpr != another[i].conditionExpr then false
    else
      var same :=
        match cvc[i].result
        case Nested(v1) => another[i].result.Nested? && Equal(v1, another[i].result.config)
        case Literal(v) => another[i].result == Literal(v);
      assert cvc[i..] == [cvc[i]] + cvc[i + 1..];
      assert another[i..] == [another[i]] + another[i + 1..];
      same && EqualFrom(cvc, another, i + 1)
  }
}
