/**
 * The older error-shape predicates of addon/utils/validate-error.js. The
 * shape check is the same as the one in ValidateError (the two files hold
 * the same code for it); emptiness and key matching take any JavaScript
 * value and run the shape check first.
 */
module LegacyValidateError {
  import opened Wrappers
  import opened JsValues
  import opened ValidateError

  /** The error `isEmptyValidationError` throws on a malformed argument. */
  datatype Thrown = InvalidObject

  /**
   * `isEmptyValidationError`: throws when the shape check fails, otherwise
   * true iff every value is falsy.
   */
  function LegacyIsEmptyValidationError(v: JsValue): (r: Result<bool, Thrown>)
    ensures r.Err? <==> !IsValidValidationError(v)
    ensures r.Ok? ==> (r.value <==> forall k :: k in v.props ==> !Truthy(v.props[k]))
  {
    if !IsValidValidationError(v) then Err(InvalidObject)
    else if |v.props| == 0 then Ok(true)
    else Ok(forall k :: k in v.props ==> !Truthy(v.props[k]))
  }

  /** `isValidationKeyMatch`: false on a malformed argument, else every key is an available name. */
  function LegacyIsValidationKeyMatch(v: JsValue, availableNames: seq<string>): (r: bool)
    ensures !IsValidValidationError(v) ==> !r
    ensures IsValidValidationError(v) ==> (r <==> v.props.Keys <= set n | n in availableNames)
  {
    IsValidValidationError(v) && forall k :: k in v.props ==> k in availableNames
  }

  /** On conforming values the older predicates agree with the current ones. */
  lemma {:induction false} AgreesWithCurrent(v: JsValue, names: seq<string>)
    requires IsValidValidationError(v)
    ensures LegacyIsEmptyValidationError(v) == Ok(IsEmptyValidationError(AsValidationError(v)))
    ensures LegacyIsValidationKeyMatch(v, names) == IsValidationKeyMatch(AsValidationError(v), names)
  {
    var e := AsValidationError(v);
    forall k | k in e ensures IsFalsy(e[k]) <==> !Truthy(v.props[k]) {
      assert MessageValue(e[k]) == v.props[k];
    }
  }

  /** The emptiness vectors of tests/unit/utils/validate-error-test.js. */
  lemma LegacyEmptinessExamples()
    ensures LegacyIsEmptyValidationError(Object(map[])) == Ok(true)
    ensures LegacyIsEmptyValidationError(Object(map["name" := Str(""), "bar" := Str("")])) == Ok(true)
  {
    var p := map["name" := Str(""), "bar" := Str("")];
    assert p.Keys == {"name", "bar"};
    assert IsValidValidationError(Object(p));
  }

  /** A truthy string or SafeString value makes a conforming error non-empty. */
  lemma LegacyNonEmptyExamples()
    ensures LegacyIsEmptyValidationError(Object(map["name" := Str("123"), "bar" := Str("")])) == Ok(false)
    ensures LegacyIsEmptyValidationError(Object(map["name" := SafeStr("655"), "bar" := Str("")])) == Ok(false)
  {
    var p1 := map["name" := Str("123"), "bar" := Str("")];
    assert p1.Keys == {"name", "bar"};
    assert IsValidValidationError(Object(p1));
    assert "name" in p1 && Truthy(p1["name"]);
    var p2 := map["name" := SafeStr("655"), "bar" := Str("")];
    assert p2.Keys == {"name", "bar"};
    assert IsValidValidationError(Object(p2));
    assert "name" in p2 && Truthy(p2["name"]);
  }

  /** The key-match vectors of tests/unit/utils/validate-error-test.js. */
  lemma LegacyKeyMatchExamples()
    ensures !LegacyIsValidationKeyMatch(Undefined, [])
    ensures !LegacyIsValidationKeyMatch(Object(map["name" := Str("123"), "bar" := Str("54")]), ["name"])
    ensures LegacyIsValidationKeyMatch(Object(map["name" := Str("123")]), ["name", "bar"])
  {
    var p3 := map["name" := Str("123"), "bar" := Str("54")];
    assert "bar" in p3 && "bar" !in ["name"];
    var p4 := map["name" := Str("123")];
    assert p4.Keys == {"name"};
    assert IsValidValidationError(Object(p4));
  }
}
