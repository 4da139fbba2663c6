/** The tree builder (`ParseConditionValueConfig`), over an already
    decoded JSON value: arrays in result position become nested
    configurations, everything else is kept as a literal. */
module Parse {
  import opened Values
  import opened CondVal
  import Compare

  // ---------------------------------------------------------------------
  // Decoding into the list of {condition, result} records

  /** Whether one array element decodes into a {condition, result}
      record: a JSON object whose "condition", if present, is a string or
      null; or null itself, which leaves the record at its zero value.
      Strings, numbers, booleans and arrays do not decode into a record. */
  function DecodableEntry(e: Value): (r: bool)
    ensures e.Null? ==> r
    ensures e.Obj? && "condition" !in e.fields ==> r
    ensures e.Obj? && "condition" in e.fields ==>
              (r <==> e.fields["condition"].Str? || e.fields["condition"].Null?)
    ensures !e.Null? && !e.Obj? ==> !r
  {
    e.Null? ||
    (e.Obj? && ("condition" in e.fields ==> e.fields["condition"].Str? || e.fields["condition"].Null?))
  }

  /** Whether the whole input decodes into a list of records: null (which
      decodes to an empty list) or an array whose every element decodes;
      any other value does not. */
  function Decodable(raw: Value): (r: bool)
    ensures raw.Null? ==> r
    ensures raw.Arr? ==> (r <==> forall j :: 0 <= j < |raw.items| ==> DecodableEntry(raw.items[j]))
    ensures !raw.Null? && !raw.Arr? ==> !r
  {
    raw.Null? || (raw.Arr? && forall j :: 0 <= j < |raw.items| ==> DecodableEntry(raw.items[j]))
  }

  /** The records' source elements: the array's items, in order; none for
      null. */
  function Entries(raw: Value): (items: seq<Value>)
    ensures raw.Null? ==> items == []
    ensures raw.Arr? ==> items == raw.items
  {
    if raw.Arr? then raw.items else []
  }

  /** The decoded "condition" field: the string when it is one, and ""
      (Go's zero string) when the field is absent or null or the element
      itself is null. */
  function ConditionField(e: Value): (cond: string)
    ensures e.Obj? && "condition" in e.fields && e.fields["condition"].Str? ==> cond == e.fields["condition"].s
    ensures e.Obj? && "condition" !in e.fields ==> cond == ""
    ensures e.Obj? && "condition" in e.fields && e.fields["condition"].Null? ==> cond == ""
    ensures e.Null? ==> cond == ""
  {
    if e.Obj? && "condition" in e.fields && e.fields["condition"].Str? then e.fields["condition"].s else ""
  }

  /** The decoded "result" field, stored as it is: null (Go's nil) when the
      field is absent or the element itself is null. */
  function ResultField(e: Value): (result: Value)
    ensures e.Obj? && "result" in e.fields ==> result == e.fields["result"]
    ensures e.Obj? && "result" !in e.fields ==> result == Null
    ensures e.Null? ==> result == Null
  {
    if e.Obj? && "result" in e.fields then e.fields["result"] else Null
  }

  // ---------------------------------------------------------------------
  // The builder

  /** Trees the builder produces hold no array literal: every array in
      result position has been turned into a nested configuration. */
  ghost predicate ArraysNested(cvc: ConditionValueConfig)
    decreases cvc
  {
    forall j :: 0 <= j < |cvc| ==>
      match cvc[j].result
      case Nested(sub) => ArraysNested(sub)
      case Literal(v) => !v.Arr?
  }

  /** `prefix + rest` on success; errors pass through. */
  function Prepend(prefix: ConditionValueConfig, r: Result<ConditionValueConfig, Error>): (r': Result<ConditionValueConfig, Error>) {
    match r
    case Ok(rest) => Ok(prefix + rest)
    case Err(e) => Err(e)
  }

  lemma PrependNothing(r: Result<ConditionValueConfig, Error>)
    ensures Prepend([], r) == r
  {
    if r.Ok? {
      assert [] + r.value == r.value;
    }
  }

  lemma PrependTwice(p: ConditionValueConfig, q: ConditionValueConfig, r: Result<ConditionValueConfig, Error>)
    ensures Prepend(p, Prepend(q, r)) == Prepend(p + q, r)
  {
    if r.Ok? {
      assert p + (q + r.value) == (p + q) + r.value;
    }
  }

  /** A nested build that fails at element `e`. */
  predicate SubBuildFails(e: Value)
    decreases e, 2
  {
    ResultField(e).Arr? && Build(ResultField(e)).Err?
  }

  /** The build of a decoded value: `ErrParseJson` exactly when decoding
      fails, `ErrSubResult` when a nested build fails, otherwise a tree in
      which every array result is nested. */
  function Build(raw: Value): (r: Result<ConditionValueConfig, Error>)
    ensures r == Err(ErrParseJson) <==> !Decodable(raw)
    ensures r.Err? ==> r.error == ErrParseJson || r.error == ErrSubResult
    ensures r.Ok? ==> |r.value| == |Entries(raw)| && ArraysNested(r.value)
    decreases raw, 1
  {
    if !Decodable(raw) then Err(ErrParseJson) else BuildFrom(raw, 0)
  }

  /** The build loop from record `i` on. */
  function BuildFrom(raw: Value, i: nat): (r: Result<ConditionValueConfig, Error>)
    requires Decodable(raw) && i <= |Entries(raw)|
    ensures r.Err? ==> r.error == ErrSubResult
    ensures r.Ok? ==> |r.value| == |Entries(raw)| - i && ArraysNested(r.value)
    decreases raw, 0, |Entries(raw)| - i
  {
    if i == |Entries(raw)| then Ok([])
    else
      var e := Entries(raw)[i];
      var result := ResultField(e);
      if result.Arr? then
        match Build(result)
        case Err(_) => Err(ErrSubResult)
        case Ok(sub) => Prepend([ConditionValue(ConditionField(e), Nested(sub))], BuildFrom(raw, i + 1))
      else
        Prepend([ConditionValue(ConditionField(e), Literal(result))], BuildFrom(raw, i + 1))
  }

  /** `ParseConditionValueConfig`: decode, then append one rule per record,
      building array results recursively; no partial tree is returned. */
  method ParseConditionValueConfig(raw: Value) returns (r: Result<ConditionValueConfig, Error>)
    ensures r == Build(raw)
    decreases raw
  {
    if !Decodable(raw) {
      return Err(ErrParseJson);
    }
    var rawCvc := Entries(raw);
    var cvc: ConditionValueConfig := [];
    PrependNothing(Build(raw));
    for i := 0 to |rawCvc|
      invariant Prepend(cvc, BuildFrom(raw, i)) == Build(raw)
    {
      var cv := rawCvc[i];
      var result := ResultField(cv);
      var rule: ConditionValue;
      if result.Arr? {
        var subRet := ParseConditionValueConfig(result);
        if subRet.Err? {
          return Err(ErrSubResult);
        }
        rule := ConditionValue(ConditionField(cv), Nested(subRet.value));
      } else {
        rule := ConditionValue(ConditionField(cv), Literal(result));
      }
      PrependTwice(cvc, [rule], BuildFrom(raw, i + 1));
      cvc := cvc + [rule];
    }
    assert cvc + [] == cvc;
    return Ok(cvc);
  }

  // ---------------------------------------------------------------------
  // Properties of the builder

  /** Rule `j` of a successful build from record `i` on comes from record
      `i + j`. */
  lemma {:induction false} BuildFromAt(raw: Value, i: nat, j: nat)
    requires Decodable(raw) && i <= |Entries(raw)|
    requires BuildFrom(raw, i).Ok? && j < |BuildFrom(raw, i).value|
    ensures var e := Entries(raw)[i + j];
            var cv := BuildFrom(raw, i).value[j];
            cv.conditionExpr == ConditionField(e) &&
            (ResultField(e).Arr? ==> Build(ResultField(e)).Ok? && cv.result == Nested(Build(ResultField(e)).value)) &&
            (!ResultField(e).Arr? ==> cv.result == Literal(ResultField(e)))
    decreases j
  {
    if j > 0 {
      BuildFromAt(raw, i + 1, j - 1);
    }
  }

  /** A successful build keeps the records' order and number: rule `j`
      carries record `j`'s condition, and its result is the nested build of
      record `j`'s result when that is an array and that result unchanged
      otherwise. */
  lemma BuildKeepsEntries(raw: Value, j: nat)
    requires Build(raw).Ok? && j < |Entries(raw)|
    ensures var e := Entries(raw)[j];
            var cv := Build(raw).value[j];
            cv.conditionExpr == ConditionField(e) &&
            (ResultField(e).Arr? ==> Build(ResultField(e)).Ok? && cv.result == Nested(Build(ResultField(e)).value)) &&
            (!ResultField(e).Arr? ==> cv.result == Literal(ResultField(e)))
  {
    BuildFromAt(raw, 0, j);
  }

  /** The loop from record `i` fails exactly when some later record's
      nested build fails. */
  lemma {:induction false} BuildFromFails(raw: Value, i: nat)
    requires Decodable(raw) && i <= |Entries(raw)|
    ensures BuildFrom(raw, i).Err? <==> exists j :: i <= j < |Entries(raw)| && SubBuildFails(Entries(raw)[j])
    decreases |Entries(raw)| - i
  {
    if i < |Entries(raw)| {
      BuildFromFails(raw, i + 1);
      if SubBuildFails(Entries(raw)[i]) {
        assert BuildFrom(raw, i).Err?;
      }
    }
  }

  /** A decodable input fails to build, with `ErrSubResult`, exactly when
      the nested build of some array result fails; no partial tree is
      returned. */
  lemma BuildErrors(raw: Value)
    ensures Build(raw) == Err(ErrSubResult) <==>
            Decodable(raw) && exists j :: 0 <= j < |Entries(raw)| && SubBuildFails(Entries(raw)[j])
  {
    if Decodable(raw) {
      BuildFromFails(raw, 0);
    }
  }

  // ---------------------------------------------------------------------
  // The inverse: a configuration as JSON

  /** The serialized form of a configuration, as a decoded JSON value: an
      array of objects with a "condition" string and a "result" that is the
      nested configuration's serialized form or the literal itself. */
  function Serialize(cvc: ConditionValueConfig): (raw: Value)
    decreases cvc, 1
  {
    Arr(SerializeFrom(cvc, 0))
  }

  function SerializeFrom(cvc: ConditionValueConfig, i: nat): (items: seq<Value>)
    requires i <= |cvc|
    ensures |items| == |cvc| - i
    decreases cvc, 0, |cvc| - i
  {
    if i == |cvc| then []
    else
      var result := match cvc[i].result
        case Nested(sub) => Serialize(sub)
        case Literal(v) => v;
      [Obj(map["condition" := Str(cvc[i].conditionExpr), "result" := result])] + SerializeFrom(cvc, i + 1)
  }

  /** Building the serialized form of a tree gives that tree back, for
      every tree the builder can produce (no array literals), so `Equal`
      holds between the two. */
  lemma {:induction false} BuildSerialize(cvc: ConditionValueConfig)
    requires ArraysNested(cvc)
    ensures Build(Serialize(cvc)) == Ok(cvc)
    ensures Compare.Equal(Build(Serialize(cvc)).value, cvc)
    decreases cvc, 1
  {
    var raw := Serialize(cvc);
    forall j | 0 <= j < |raw.items| ensures DecodableEntry(raw.items[j]) {
      SerializeFromAt(cvc, 0, j);
    }
    BuildSerializeFrom(cvc, 0);
    assert cvc[0..] == cvc;
  }

  lemma {:induction false} SerializeFromAt(cvc: ConditionValueConfig, i: nat, j: nat)
    requires i <= |cvc| && j < |cvc| - i
    ensures SerializeFrom(cvc, i)[j] ==
            Obj(map["condition" := Str(cvc[i + j].conditionExpr),
                    "result" := match cvc[i + j].result case Nested(sub) => Serialize(sub) case Literal(v) => v])
    decreases j
  {
    if j > 0 {
      SerializeFromAt(cvc, i + 1, j - 1);
    }
  }

  lemma {:induction false} BuildSerializeFrom(cvc: ConditionValueConfig, i: nat)
    requires ArraysNested(cvc) && i <= |cvc|
    requires Decodable(Serialize(cvc))
    ensures BuildFrom(Serialize(cvc), i) == Ok(cvc[i..])
    decreases cvc, 0, |cvc| - i
  {
    var raw := Serialize(cvc);
    if i < |cvc| {
      SerializeFromAt(cvc, 0, i);
      BuildSerializeFrom(cvc, i + 1);
      var e := Entries(raw)[i];
      assert ConditionField(e) == cvc[i].conditionExpr;
      match cvc[i].result {
        case Nested(sub) =>
          BuildSerialize(sub);
        case Literal(v) =>
          assert !v.Arr?;
      }
      assert cvc[i..] == [cvc[i]] + cvc[i + 1..];
    }
  }
}
