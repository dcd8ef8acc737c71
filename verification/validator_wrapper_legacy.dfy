/**
 * The older `ValidatorWrapper` of addon/components/validator-wrapper.js: one
 * error message per field. A pass clears the element the previous pass
 * marked, reports the first constraint violation of the field (the root
 * element first), and only without one consults the custom validators,
 * whose first truthy result may name an element to mark.
 *
 * The validators run synchronously here. The i18n lookups are the
 * `translate` parameter, keyed by the message keys the source uses.
 */
module LegacyValidatorWrapper {
  import opened Wrappers
  import opened JsValues
  import opened Dom

  /** A custom validator: the arguments of the trigger to the value it returns. */
  type LegacyValidator = seq<JsValue> -> JsValue

  /** The `validators` property: absent (falsy), an array, or some other truthy value. */
  datatype Validators = Absent | List(fs: seq<LegacyValidator>) | NotAnArray

  /** The translation keys of the constraint messages. */
  datatype MessageKey =
    | InputValueMissing     // i18n_js_validity_input_value_missing
    | SelectValueMissing    // i18n_js_validity_select_value_missing
    | EmailTypeMismatch     // i18n_js_validity_type_mismatch_email
    | UrlTypeMismatch       // i18n_js_validity_type_mismatch_url
    | PatternMismatch       // i18n_js_validity_pattern_mismatch

  /** What a pass can throw. */
  datatype Thrown =
    | SelectorNotFound(selector: string)   // the error names no element but carries a message
    | NullElement                          // `_setCustomValidity` reached with no element

  // ---------------------------------------------------------------------
  // The custom validators

  /** The first truthy result of the validators in order, `null` when there is none. */
  function FirstTruthy(fs: seq<LegacyValidator>, args: seq<JsValue>): JsValue {
    if fs == [] then Null
    else if Truthy(fs[0](args)) then fs[0](args)
    else FirstTruthy(fs[1..], args)
  }

  /**
   * The chain returns a truthy value exactly when some validator does, and
   * then the result of the first such validator; otherwise `null`.
   */
  lemma {:induction false} FirstTruthyMeaning(fs: seq<LegacyValidator>, args: seq<JsValue>)
    ensures Truthy(FirstTruthy(fs, args)) || FirstTruthy(fs, args) == Null
    ensures Truthy(FirstTruthy(fs, args)) <==> exists i :: 0 <= i < |fs| && Truthy(fs[i](args))
    ensures Truthy(FirstTruthy(fs, args)) ==>
              exists i :: 0 <= i < |fs| && FirstTruthy(fs, args) == fs[i](args)
                          && forall k :: 0 <= k < i ==> !Truthy(fs[k](args))
  {
    if fs != [] && !Truthy(fs[0](args)) {
      FirstTruthyMeaning(fs[1..], args);
      if Truthy(FirstTruthy(fs, args)) {
        var i :| 0 <= i < |fs[1..]| && FirstTruthy(fs, args) == fs[1..][i](args)
                 && forall k :: 0 <= k < i ==> !Truthy(fs[1..][k](args));
        assert forall k :: 1 <= k < i + 1 ==> fs[k] == fs[1..][k - 1];
        assert fs[i + 1] == fs[1..][i];
      } else {
        forall i | 1 <= i < |fs| ensures !Truthy(fs[i](args)) {
          assert fs[i] == fs[1..][i - 1];
        }
      }
    }
  }

  /** The value `customValidate` returns. */
  function CustomResult(validators: Validators, args: seq<JsValue>): JsValue {
    if validators.List? then FirstTruthy(validators.fs, args) else Null
  }

  /** What `_getCustomError` does, decided by the chain's result and the document. */
  datatype CustomStep =
    | Skip                                   // no validators: '' and nothing changes
    | Cleared                                // no truthy result: '' and the remembered element is forgotten
    | NotAnObject                            // a truthy non-object result: ''
    | Throws(thrown: Thrown)
    | Mark(element: nat, message: JsValue)   // mark the named element with the error's message

  /** The step `_getCustomError` takes on `nodes`. */
  function PlanCustomStep(validators: Validators, nodes: seq<Control>, root: Subtree, args: seq<JsValue>): (s: CustomStep)
    requires Within(nodes, root)
    ensures s.Mark? ==> s.element < |nodes| && s.element in root.descendants
  {
    if validators.Absent? then Skip
    else
      var error := CustomResult(validators, args);
      if !Truthy(error) then Cleared
      else if !TypeofIsObject(error) then NotAnObject
      else match QuerySelector(nodes, root.descendants, NameIs(ToJsString(Prop(error, "name"))))
        case None =>
          if Truthy(Prop(error, "message")) then Throws(SelectorNotFound(ToJsString(Prop(error, "selector"))))
          else Throws(NullElement)
        case Some(i) => Mark(i, Prop(error, "message"))
  }

  /**
   * The custom step throws exactly when the chain's result is a truthy
   * object and no descendant carries the name it gives; the message names
   * the missing element only when the error has a truthy message. A marked
   * element carries that name, and the remembered element is forgotten
   * exactly when validators are present and none returns a truthy value.
   */
  lemma CustomStepMeaning(validators: Validators, nodes: seq<Control>, root: Subtree, args: seq<JsValue>)
    requires Within(nodes, root)
    ensures var s := PlanCustomStep(validators, nodes, root, args);
            var error := CustomResult(validators, args);
            var name := ToJsString(Prop(error, "name"));
            && (s.Throws? <==> !validators.Absent? && Truthy(error) && TypeofIsObject(error)
                               && forall k :: 0 <= k < |root.descendants| ==> nodes[root.descendants[k]].name != Some(name))
            && (s.Throws? ==> (s.thrown.SelectorNotFound? <==> Truthy(Prop(error, "message"))))
            && (s.Mark? ==> nodes[s.element].name == Some(name) && s.message == Prop(error, "message"))
            && (s.Cleared? <==> !validators.Absent? && !Truthy(error))
  {
    if !validators.Absent? {
      var error := CustomResult(validators, args);
      QuerySelectorNone(nodes, root.descendants, NameIs(ToJsString(Prop(error, "name"))));
    }
  }

  // ---------------------------------------------------------------------
  // Marks

  /**
   * `_setCustomValidity` on one element: an element without the constraint
   * API gets the message as `data-error-message` and `aria-invalid`; any
   * other element gets the message as its custom validity.
   */
  function SetCustomValidityOn(c: Control, message: JsValue, isAriaInvalid: bool): (r: Control)
    ensures r.Skeleton() == c.Skeleton()
    ensures c.constraintApi ==> (r.CustomError() <==> ToJsString(message) != "")
    ensures c.constraintApi ==> r.ariaInvalid == c.ariaInvalid && r.errorData == c.errorData
    ensures !c.constraintApi ==> r.customMessage == c.customMessage && r.errorData == Some(ToJsString(message))
                                 && r.ariaInvalid == Some(if isAriaInvalid then "true" else "false")
  {
    if !c.constraintApi then c.(errorData := Some(ToJsString(message)), ariaInvalid := Some(if isAriaInvalid then "true" else "false"))
    else c.(customMessage := ToJsString(message))
  }

  /** Clearing an element leaves its native validity alone: it no longer reports a custom error. */
  lemma ClearingRestoresNativeValidity(c: Control)
    ensures !SetCustomValidityOn(c, Str(""), false).CustomError() || !c.constraintApi
    ensures c.constraintApi ==> (SetCustomValidityOn(c, Str(""), false).IsValid() <==> !c.flags.Any())
    ensures !c.constraintApi ==> SetCustomValidityOn(c, Str(""), false).ariaInvalid == Some("false")
  {
  }

  /** The document once the element remembered from the previous pass is cleared. */
  function ClearLast(nodes: seq<Control>, last: Option<nat>): seq<Control>
    requires last.Some? ==> last.value < |nodes|
  {
    if last.Some? then nodes[last.value := SetCustomValidityOn(nodes[last.value], Str(""), false)] else nodes
  }

  /** What `_getCustomError` returns for a step. */
  function StepValue(s: CustomStep): Result<JsValue, Thrown> {
    match s
    case Throws(t) => Err(t)
    case Mark(_, message) => Ok(message)
    case _ => Ok(Str(""))
  }

  /** The document after a step. */
  function StepNodes(s: CustomStep, nodes: seq<Control>): seq<Control>
    requires s.Mark? ==> s.element < |nodes|
  {
    if s.Mark? then nodes[s.element := SetCustomValidityOn(nodes[s.element], s.message, true)] else nodes
  }

  /** The remembered element after a step. */
  function StepLast(s: CustomStep, last: Option<nat>): Option<nat> {
    match s
    case Cleared => None
    case Mark(i, _) => Some(i)
    case _ => last
  }

  // ---------------------------------------------------------------------
  // Constraint violations

  /** An element with the constraint API that is invalid, and not through a custom error. */
  predicate LegacyViolates(c: Control) {
    c.constraintApi && !c.CustomError() && !c.IsValid()
  }

  /** The element's `type` in lower case, "" when it has none. */
  function InputType(c: Control): string {
    if c.typeAttr.Some? && c.typeAttr.value != "" then Lower(c.typeAttr.value) else ""
  }

  /**
   * The message for a violating element: a missing value on an input or a
   * select, then a type mismatch on an email or url input, then a pattern
   * mismatch have translated messages; anything else keeps the native one.
   * Tag and type are compared in lower case.
   */
  function Classify(c: Control, translate: MessageKey -> string): string {
    var tagName := Lower(c.tagName);
    if c.flags.valueMissing && tagName == "input" then translate(InputValueMissing)
    else if c.flags.valueMissing && tagName == "select" then translate(SelectValueMissing)
    else if c.flags.typeMismatch && InputType(c) == "email" then translate(EmailTypeMismatch)
    else if c.flags.typeMismatch && InputType(c) == "url" then translate(UrlTypeMismatch)
    else if c.flags.patternMismatch then translate(PatternMismatch)
    else c.ValidationMessage()
  }

  /**
   * The ladder, rung by rung: a missing value on an input or select
   * outranks every other flag, then a type mismatch on an email or url
   * input, then a pattern mismatch; an element no rung covers (a textarea
   * missing its value, a number input with a type mismatch) keeps its
   * native message.
   */
  lemma ClassifyPriority(c: Control, translate: MessageKey -> string)
    ensures var missing := c.flags.valueMissing && Lower(c.tagName) in {"input", "select"};
            && (missing ==>
                  Classify(c, translate) == translate(if Lower(c.tagName) == "input" then InputValueMissing else SelectValueMissing))
            && (!missing && c.flags.typeMismatch && InputType(c) == "email" ==> Classify(c, translate) == translate(EmailTypeMismatch))
            && (!missing && c.flags.typeMismatch && InputType(c) == "url" ==> Classify(c, translate) == translate(UrlTypeMismatch))
    ensures var missing := c.flags.valueMissing && Lower(c.tagName) in {"input", "select"};
            var mismatch := c.flags.typeMismatch && InputType(c) in {"email", "url"};
            && (!missing && !mismatch && c.flags.patternMismatch ==> Classify(c, translate) == translate(PatternMismatch))
            && (!missing && !mismatch && !c.flags.patternMismatch ==> Classify(c, translate) == c.ValidationMessage())
    ensures Classify(c, translate) == c.ValidationMessage()
            || exists k :: Classify(c, translate) == translate(k)
  {
    var r := Classify(c, translate);
    if r != c.ValidationMessage() {
      if c.flags.valueMissing && Lower(c.tagName) == "input" {
        assert r == translate(InputValueMissing);
      } else if c.flags.valueMissing && Lower(c.tagName) == "select" {
        assert r == translate(SelectValueMissing);
      } else if r == translate(EmailTypeMismatch) {
      } else if r == translate(UrlTypeMismatch) {
      } else {
        assert r == translate(PatternMismatch);
      }
    }
  }

  /** The elements `_collectConstraintViolation` checks: the root, then its named inputs and selects. */
  function Candidates(nodes: seq<Control>, root: Subtree): (r: seq<nat>)
    requires Within(nodes, root)
    ensures AllIn(nodes, r) && |r| >= 1 && r[0] == root.root
  {
    [root.root] + QuerySelectorAll(nodes, root.descendants, NamedInputOrSelect)
  }

  /**
   * After the root, the candidates are exactly the descendants that are
   * named inputs or selects.
   */
  lemma CandidatesMembers(nodes: seq<Control>, root: Subtree, x: nat)
    requires Within(nodes, root)
    ensures x in Candidates(nodes, root)[1..] <==> x in root.descendants && x < |nodes| && Matches(nodes[x], NamedInputOrSelect)
  {
    assert Candidates(nodes, root)[1..] == QuerySelectorAll(nodes, root.descendants, NamedInputOrSelect);
    QuerySelectorAllMembers(nodes, root.descendants, NamedInputOrSelect, x);
  }

  /** The message of the first violating element of `elements`, "" when none violates. */
  function ConstraintViolation(nodes: seq<Control>, elements: seq<nat>, translate: MessageKey -> string): string
    requires AllIn(nodes, elements)
  {
    if elements == [] then ""
    else if LegacyViolates(nodes[elements[0]]) then Classify(nodes[elements[0]], translate)
    else ConstraintViolation(nodes, elements[1..], translate)
  }

  /** Without a violating element the result is "". */
  lemma {:induction false} NoViolationNoMessage(nodes: seq<Control>, elements: seq<nat>, translate: MessageKey -> string)
    requires AllIn(nodes, elements)
    requires forall k :: 0 <= k < |elements| ==> !LegacyViolates(nodes[elements[k]])
    ensures ConstraintViolation(nodes, elements, translate) == ""
  {
    if elements != [] {
      assert forall k :: 0 <= k < |elements[1..]| ==> elements[1..][k] == elements[k + 1];
      NoViolationNoMessage(nodes, elements[1..], translate);
    }
  }

  /** The result is the message of the first violating element in order. */
  lemma {:induction false} FirstViolationWins(nodes: seq<Control>, elements: seq<nat>, translate: MessageKey -> string, i: nat)
    requires AllIn(nodes, elements) && i < |elements| && LegacyViolates(nodes[elements[i]])
    requires forall k :: 0 <= k < i ==> !LegacyViolates(nodes[elements[k]])
    ensures ConstraintViolation(nodes, elements, translate) == Classify(nodes[elements[i]], translate)
  {
    if i > 0 {
      assert forall k :: 0 <= k < |elements[1..]| ==> elements[1..][k] == elements[k + 1];
      FirstViolationWins(nodes, elements[1..], translate, i - 1);
    }
  }

  // ---------------------------------------------------------------------
  // The component

  class ValidatorWrapper {
    var validating: bool
    const validators: Validators
    const translate: MessageKey -> string
    /** The message shown for the field: a string, or whatever a custom error carried as `message`. */
    var error: JsValue
    /** The element the last custom error marked, cleared at the start of the next pass. */
    var lastElementWithCustomError: Option<nat>

    constructor (validating: bool, validators: Validators, translate: MessageKey -> string)
      ensures this.validating == validating && this.validators == validators && this.translate == translate
      ensures error == Str("") && lastElementWithCustomError == None
    {
      this.validating := validating;
      this.validators := validators;
      this.translate := translate;
      error := Str("");
      lastElementWithCustomError := None;
    }

    /** The `errorMessage` computed property: the error while validating, '' otherwise. */
    function ErrorMessage(): (r: JsValue)
      reads this`validating, this`error
      ensures validating ==> r == error
      ensures !validating ==> r == Str("") && !Truthy(r)
    {
      if validating then error else Str("")
    }

    /** `customValidate`: the first truthy validator result, `null` without one or without an array. */
    method CustomValidate(args: seq<JsValue>) returns (result: JsValue)
      ensures result == CustomResult(validators, args)
    {
      if validators.List? {
        var fs := validators.fs;
        for i := 0 to |fs|
          invariant FirstTruthy(fs, args) == FirstTruthy(fs[i..], args)
        {
          assert fs[i..][1..] == fs[i + 1..];
          var r := fs[i](args);
          if Truthy(r) {
            return r;
          }
        }
        assert fs[|fs|..] == [];
      }
      return Null;
    }

    /** `_setCustomValidity` on the element at `element`. */
    method SetCustomValidity(doc: Document, element: nat, message: JsValue, isAriaInvalid: bool)
      requires element < |doc.nodes|
      modifies doc`nodes
      ensures doc.nodes == old(doc.nodes)[element := SetCustomValidityOn(old(doc.nodes)[element], message, isAriaInvalid)]
    {
      var c := doc.nodes[element];
      if !c.constraintApi {
        c := c.(errorData := Some(ToJsString(message)));
        c := c.(ariaInvalid := Some(if isAriaInvalid then "true" else "false"));
      } else {
        c := c.(customMessage := ToJsString(message));
      }
      doc.nodes := doc.nodes[element := c];
    }

    /**
     * `_getCustomError`: consults the validators and, when the result is an
     * object, marks the element it names and remembers it.
     */
    method GetCustomError(doc: Document, root: Subtree, args: seq<JsValue>) returns (r: Result<JsValue, Thrown>)
      requires Within(doc.nodes, root)
      modifies doc`nodes, this`lastElementWithCustomError
      ensures var s := PlanCustomStep(validators, old(doc.nodes), root, args);
              && r == StepValue(s)
              && doc.nodes == StepNodes(s, old(doc.nodes))
              && lastElementWithCustomError == StepLast(s, old(lastElementWithCustomError))
    {
      if validators.Absent? {
        return Ok(Str(""));
      }
      var error := CustomValidate(args);
      if !Truthy(error) {
        lastElementWithCustomError := None;
        return Ok(Str(""));
      } else if TypeofIsObject(error) {
        var invalidElement := QuerySelector(doc.nodes, root.descendants, NameIs(ToJsString(Prop(error, "name"))));
        if invalidElement.None? && Truthy(Prop(error, "message")) {
          return Err(SelectorNotFound(ToJsString(Prop(error, "selector"))));
        }
        if invalidElement.None? {
          return Err(NullElement);
        }
        SetCustomValidity(doc, invalidElement.value, Prop(error, "message"), true);
        lastElementWithCustomError := invalidElement;
        return Ok(Prop(error, "message"));
      }
      return Ok(Str(""));
    }

    /** `_collectConstraintViolation`: the message of the first violating candidate, '' without one. */
    method CollectConstraintViolation(doc: Document, root: Subtree) returns (message: string)
      requires Within(doc.nodes, root)
      ensures message == ConstraintViolation(doc.nodes, Candidates(doc.nodes, root), translate)
    {
      var elements := Candidates(doc.nodes, root);
      for i := 0 to |elements|
        invariant ConstraintViolation(doc.nodes, elements, translate) == ConstraintViolation(doc.nodes, elements[i..], translate)
      {
        assert elements[i..][1..] == elements[i + 1..];
        var element := doc.nodes[elements[i]];
        if LegacyViolates(element) {
          return Classify(element, translate);
        }
      }
      assert elements[|elements|..] == [];
      return "";
    }

    /**
     * The `contextualValidator` action: clears the element the previous
     * pass marked, then sets `error` to the first constraint violation, or,
     * without one, to what the custom validators give. A throw leaves
     * `error` as it was.
     */
    method ContextualValidator(doc: Document, root: Subtree, args: seq<JsValue>) returns (r: Result<JsValue, Thrown>)
      requires Within(doc.nodes, root)
      requires lastElementWithCustomError.Some? ==> lastElementWithCustomError.value < |doc.nodes|
      modifies doc`nodes, this`error, this`lastElementWithCustomError
      ensures var cleared := ClearLast(old(doc.nodes), old(lastElementWithCustomError));
              var constraint := ConstraintViolation(cleared, Candidates(cleared, root), translate);
              constraint != "" ==>
                r == Ok(Str(constraint)) && doc.nodes == cleared
                && lastElementWithCustomError == old(lastElementWithCustomError)
      ensures var cleared := ClearLast(old(doc.nodes), old(lastElementWithCustomError));
              var constraint := ConstraintViolation(cleared, Candidates(cleared, root), translate);
              var s := PlanCustomStep(validators, cleared, root, args);
              constraint == "" ==>
                r == StepValue(s) && doc.nodes == StepNodes(s, cleared)
                && lastElementWithCustomError == StepLast(s, old(lastElementWithCustomError))
      ensures r.Ok? ==> error == r.value
      ensures r.Err? ==> error == old(error)
    {
      if lastElementWithCustomError.Some? {
        SetCustomValidity(doc, lastElementWithCustomError.value, Str(""), false);
      }
      var constraint := CollectConstraintViolation(doc, root);
      if constraint != "" {
        error := Str(constraint);
        return Ok(error);
      }
      r := GetCustomError(doc, root, args);
      if r.Ok? {
        error := r.value;
      }
    }
  }
}
