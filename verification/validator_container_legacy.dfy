/**
 * The older `ValidatorContainer` of addon/components/validator-container.js:
 * `isValid` is a getter over the wrapper map, `validating` is copied from the
 * argument, and a failed submit focuses the first invalid element without
 * checking that there is one.
 */
module LegacyValidatorContainer {
  import opened Wrappers
  import opened Registry
  import opened Dom

  /** What `checkForm` ends with: the callback ran, an element got focus, or a TypeError was thrown. */
  datatype SubmitOutcome = Saved | Focused(element: nat) | Crashed

  class ValidatorContainer {
    /** Copied from the argument; undefined (None) when the argument is absent. */
    var validating: Option<bool>
    var wrapperMap: WrapperMap
    var element: Option<Subtree>

    constructor (validatingArg: Option<bool>)
      ensures validating == validatingArg && wrapperMap == map[] && element == None
    {
      validating := validatingArg;
      wrapperMap := map[];
      element := None;
    }

    /** The `isValid` getter. */
    predicate IsValid()
      reads this
    {
      AllValid(wrapperMap)
    }

    method RegisterElement(e: Subtree)
      modifies this`element
      ensures element == Some(e)
    {
      element := Some(e);
    }

    /** `onWrapperValidate`: upserts the report of `id` and changes nothing else. */
    method OnWrapperValidate(id: nat, valid: bool)
      modifies this`wrapperMap
      ensures wrapperMap == old(wrapperMap)[id := valid]
      ensures IsValid() <==> valid && AllValid(old(wrapperMap) - {id})
    {
      wrapperMap := wrapperMap[id := valid];
      UpsertValidity(old(wrapperMap), id, valid);
    }

    /**
     * `checkForm`: turns validation mode on and calls the submit callback iff
     * the form is valid; otherwise focuses the first invalid element, which
     * throws when no element is registered or none is invalid.
     */
    method CheckForm(doc: Document) returns (outcome: SubmitOutcome)
      requires element.Some? ==> Within(doc.nodes, element.value)
      modifies this`validating, doc`activeElement
      ensures validating == Some(true)
      ensures outcome.Saved? <==> IsValid()
      ensures !IsValid() && element.Some? && QuerySelector(doc.nodes, element.value.descendants, InvalidOrAriaInvalid).Some?
              ==> outcome == Focused(QuerySelector(doc.nodes, element.value.descendants, InvalidOrAriaInvalid).value)
      ensures !IsValid() && (element.None? || QuerySelector(doc.nodes, element.value.descendants, InvalidOrAriaInvalid).None?)
              ==> outcome == Crashed
      ensures doc.activeElement == if outcome.Focused? then Some(outcome.element) else old(doc.activeElement)
    {
      validating := Some(true);
      if IsValid() {
        outcome := Saved;
      } else if element.None? {
        outcome := Crashed;
      } else {
        var invalid := QuerySelector(doc.nodes, element.value.descendants, InvalidOrAriaInvalid);
        if invalid.None? {
          outcome := Crashed;
        } else {
          doc.activeElement := invalid;
          outcome := Focused(invalid.value);
        }
      }
    }
  }
}
