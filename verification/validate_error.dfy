/**
 * The error-shape predicates of addon/utils/validate-error.ts.
 *
 * A ValidationError maps an input name to its message: a plain string or an
 * Ember SafeString. A SafeString is an object, so it is truthy even when it
 * wraps the empty string.
 */
module ValidateError {
  import opened JsValues

  datatype Message = Text(s: string) | Safe(html: string)

  type ValidationError = map<string, Message>

  /** The value JavaScript sees for a message. */
  function MessageValue(m: Message): JsValue {
    match m
    case Text(s) => Str(s)
    case Safe(html) => SafeStr(html)
  }

  /** Whether the message reads as "no error" (a falsy value). */
  predicate IsFalsy(m: Message) {
    !Truthy(MessageValue(m))
  }

  /** The text a message carries (`toString()` of a SafeString). */
  function MessageText(m: Message): string {
    match m
    case Text(s) => s
    case Safe(html) => html
  }

  /** Every property holds a string or a SafeString. */
  predicate StringValued(props: map<string, JsValue>) {
    forall k :: k in props ==> props[k].Str? || props[k].SafeStr?
  }

  /**
   * `isValidValidationError`: not an array, of type 'object', not empty for
   * Ember's `isEmpty` (which rejects null), and every value a string or a
   * SafeString. A validator result that is itself a SafeString is rejected
   * here (its internal fields are not part of this model).
   */
  predicate IsValidValidationError(v: JsValue) {
    !v.Array? && TypeofIsObject(v) && !EmberIsEmpty(v) && v.Object? && StringValued(v.props)
  }

  /** The validation error a conforming value denotes. */
  function AsValidationError(v: JsValue): (e: ValidationError)
    requires IsValidValidationError(v)
    ensures e.Keys == v.props.Keys
  {
    map k | k in v.props :: if v.props[k].Str? then Text(v.props[k].s) else Safe(v.props[k].html)
  }

  /** The JavaScript object a validation error is. */
  function ToJsValue(e: ValidationError): JsValue {
    Object(map k | k in e :: MessageValue(e[k]))
  }

  /** `isEmptyValidationError`: no key, or every value falsy. */
  predicate IsEmptyValidationError(e: ValidationError) {
    |e| == 0 || forall k :: k in e ==> IsFalsy(e[k])
  }

  /** `isValidationKeyMatch`: every key is one of `availableNames`. */
  predicate IsValidationKeyMatch(e: ValidationError, availableNames: seq<string>) {
    forall k :: k in e ==> k in availableNames
  }

  // ---------------------------------------------------------------------
  // Properties of the shape check

  /** Arrays, non-objects and null never conform. */
  lemma RejectsNonObjects(v: JsValue)
    requires v.Array? || !TypeofIsObject(v) || v.Null?
    ensures !IsValidValidationError(v)
  {
  }

  /**
   * A plain object conforms iff every value is a string or a SafeString,
   * unless Ember's `isEmpty` treats it as empty through a numeric `size` or
   * `length` of 0.
   */
  lemma ObjectConformsIffStringValued(props: map<string, JsValue>)
    requires !EmberIsEmpty(Object(props))
    ensures IsValidValidationError(Object(props)) <==> StringValued(props)
  {
  }

  /** Every validation error, seen as a JavaScript object, conforms, and reads back as itself. */
  lemma {:induction false} ToJsValueRoundTrip(e: ValidationError)
    ensures IsValidValidationError(ToJsValue(e))
    ensures AsValidationError(ToJsValue(e)) == e
  {
    var v := ToJsValue(e);
    assert !EmberIsEmpty(v) by {
      assert "size" in v.props ==> !v.props["size"].Num?;
      assert "length" in v.props ==> !v.props["length"].Num?;
    }
    var back := AsValidationError(v);
    assert back.Keys == e.Keys;
    forall k | k in e ensures back[k] == e[k] {
      assert MessageValue(back[k]) == MessageValue(e[k]);
    }
  }

  /** Every conforming value is the JavaScript object of the error it denotes. */
  lemma {:induction false} AsValidationErrorRoundTrip(v: JsValue)
    requires IsValidValidationError(v)
    ensures ToJsValue(AsValidationError(v)) == v
  {
    var e := AsValidationError(v);
    assert ToJsValue(e).props == v.props;
  }

  /** The unit-test vectors of tests/unit/utils/validate-error-test.js. */
  lemma ShapeExamples()
    ensures !IsValidValidationError(Str(""))
    ensures !IsValidValidationError(Array([]))
    ensures !IsValidValidationError(Null)
    ensures !IsValidValidationError(Num(123))
    ensures !IsValidValidationError(Object(map["foo" := Array([])]))
    ensures !IsValidValidationError(Object(map["foo" := Func]))
    ensures !IsValidValidationError(Object(map["foo" := Object(map[])]))
    ensures IsValidValidationError(Object(map["foo" := Str("123")]))
    ensures IsValidValidationError(Object(map["foo" := SafeStr("123")]))
  {
    assert "foo" in map["foo" := Array([])];
    assert "foo" in map["foo" := Func];
    assert "foo" in map["foo" := Object(map[])];
  }

  // ---------------------------------------------------------------------
  // Properties of emptiness and key matching

  /** Empty iff no value is truthy; the empty error is empty. */
  lemma {:induction false} EmptyIffNoTruthyValue(e: ValidationError)
    ensures IsEmptyValidationError(e) <==> forall k :: k in e ==> !Truthy(MessageValue(e[k]))
    ensures IsEmptyValidationError(map[])
  {
  }

  /** A SafeString message always makes the error non-empty, even if it wraps "". */
  lemma SafeMessageIsNotEmpty(e: ValidationError, k: string)
    requires k in e && e[k].Safe?
    ensures !IsEmptyValidationError(e)
  {
    assert !IsFalsy(e[k]);
  }

  /**
   * Overlaying `top` on `base` (`{...base, ...top}`) is empty iff `top` is
   * empty and so is every entry of `base` that `top` does not hide.
   */
  lemma {:induction false} OverlayEmpty(base: ValidationError, top: ValidationError)
    ensures IsEmptyValidationError(base + top) <==>
      IsEmptyValidationError(top) && forall k :: k in base && k !in top ==> IsFalsy(base[k])
  {
    if IsEmptyValidationError(base + top) {
      forall k | k in top ensures IsFalsy(top[k]) {
        assert (base + top)[k] == top[k];
      }
    }
  }

  /** The unit-test vectors of tests/unit/utils/validate-error-test.ts. */
  lemma EmptinessExamples()
    ensures IsEmptyValidationError(map[])
    ensures IsEmptyValidationError(map["name" := Text(""), "bar" := Text("")])
    ensures !IsEmptyValidationError(map["name" := Text("123"), "bar" := Text("")])
    ensures !IsEmptyValidationError(map["name" := Safe("655"), "bar" := Text("")])
    ensures !IsValidationKeyMatch(map["name" := Text("123"), "bar" := Text("54")], ["name"])
    ensures IsValidationKeyMatch(map["name" := Text("123")], ["name", "bar"])
  {
    var e1 := map["name" := Text("123"), "bar" := Text("")];
    assert "name" in e1 && !IsFalsy(e1["name"]);
    var e2 := map["name" := Safe("655"), "bar" := Text("")];
    assert "name" in e2 && !IsFalsy(e2["name"]);
    var e3 := map["name" := Text("123"), "bar" := Text("54")];
    assert "bar" in e3 && "bar" !in ["name"];
  }

  /** Key matching is inclusion of the key set in the names; the empty error matches every list. */
  lemma KeyMatchIsInclusion(e: ValidationError, names: seq<string>)
    ensures IsValidationKeyMatch(e, names) <==> e.Keys <= set n | n in names
    ensures IsValidationKeyMatch(map[], names)
  {
  }

  /** An overlay matches the names iff both parts do. */
  lemma {:induction false} OverlayKeyMatch(base: ValidationError, top: ValidationError, names: seq<string>)
    ensures IsValidationKeyMatch(base + top, names) <==>
      IsValidationKeyMatch(base, names) && IsValidationKeyMatch(top, names)
  {
    if IsValidationKeyMatch(base + top, names) {
      forall k | k in base ensures k in names {
        assert k in base + top;
      }
    }
  }
}
