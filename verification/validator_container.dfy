/**
 * `ValidatorContainer` of addon/components/validator-container.ts: the form
 * container that keeps, per registered wrapper id, the validity the wrapper
 * last reported, derives `isValid` from it and gates the submit callback.
 */
module ValidatorContainer {
  import opened Wrappers
  import opened Registry
  import opened Dom

  class ValidatorContainer {
    /** The tracked aggregate the template reads. */
    var isValid: bool
    /** Whether validation mode is active (errors surface, the aggregate is computed). */
    var validating: bool
    var wrapperMap: WrapperMap
    var wrapperCounter: nat
    /** The registered form element, searched for the first invalid child on a failed submit. */
    var el: Option<Subtree>
    /** Every id `registerId` has handed out. */
    ghost var issued: set<nat>

    /** `isValid` always equals what `validateWrappers` would compute; every issued id is below the counter. */
    ghost predicate Consistent()
      reads this
    {
      && isValid == (!validating || AllValid(wrapperMap))
      && forall id :: id in issued ==> id < wrapperCounter
    }

    /** `validating` defaults to true when the argument is absent. */
    constructor (validatingArg: Option<bool>)
      ensures Consistent()
      ensures isValid && validating == validatingArg.GetOr(true)
      ensures wrapperMap == map[] && wrapperCounter == 0 && el == None && issued == {}
    {
      isValid := true;
      validating := validatingArg.GetOr(true);
      wrapperMap := map[];
      wrapperCounter := 0;
      el := None;
      issued := {};
    }

    /** `validateWrappers`: true when not validating, else true iff no wrapper reported invalid. */
    method ValidateWrappers() returns (r: bool)
      ensures r <==> !validating || AllValid(wrapperMap)
    {
      if !validating {
        return true;
      }
      var keys := wrapperMap.Keys;
      while keys != {}
        invariant keys <= wrapperMap.Keys
        invariant forall id :: id in wrapperMap && id !in keys ==> wrapperMap[id]
        decreases keys
      {
        var key :| key in keys;
        if !wrapperMap[key] {
          return false;
        }
        keys := keys - {key};
      }
      return true;
    }

    /** `registerId`: hands out the counter, then increments it; every id is new and above all earlier ones. */
    method RegisterId() returns (id: nat)
      requires Consistent()
      modifies this`wrapperCounter, this`issued
      ensures Consistent()
      ensures id == old(wrapperCounter) && wrapperCounter == old(wrapperCounter) + 1
      ensures forall earlier :: earlier in old(issued) ==> earlier < id
      ensures id !in old(issued) && issued == old(issued) + {id}
    {
      id := wrapperCounter;
      wrapperCounter := wrapperCounter + 1;
      issued := issued + {id};
    }

    /** `unregisterId`: drops only `id` (nothing when absent) and recomputes `isValid`. */
    method UnregisterId(id: nat)
      requires Consistent()
      modifies this`wrapperMap, this`isValid
      ensures Consistent()
      ensures wrapperMap == old(wrapperMap) - {id}
      ensures id !in old(wrapperMap) ==> wrapperMap == old(wrapperMap)
      ensures (forall j :: j in old(wrapperMap) && j != id ==> old(wrapperMap)[j]) ==> isValid
    {
      wrapperMap := wrapperMap - {id};
      isValid := ValidateWrappers();
      if forall j :: j in old(wrapperMap) && j != id ==> old(wrapperMap)[j] {
        RemovingOnlyInvalid(old(wrapperMap), id);
      }
    }

    /** `registerElement`. */
    method RegisterElement(element: Subtree)
      modifies this`el
      ensures el == Some(element)
    {
      el := Some(element);
    }

    /** `onWrapperValidate`: upserts the report of `id`, keeps every other entry, recomputes `isValid`. */
    method OnWrapperValidate(id: nat, valid: bool)
      requires Consistent()
      modifies this`wrapperMap, this`isValid
      ensures Consistent()
      ensures wrapperMap == old(wrapperMap)[id := valid]
      ensures isValid <==> !validating || (valid && AllValid(old(wrapperMap) - {id}))
    {
      wrapperMap := wrapperMap[id := valid];
      isValid := ValidateWrappers();
      UpsertValidity(old(wrapperMap), id, valid);
    }

    /** The container handling one call of a wrapper: `unregisterId` or `onWrapperValidate`. */
    method Receive(call: Callback)
      requires Consistent()
      modifies this`wrapperMap, this`isValid
      ensures Consistent()
      ensures wrapperMap == Apply(old(wrapperMap), call)
    {
      match call
      case Unregister(id) => UnregisterId(id);
      case Report(id, valid) => OnWrapperValidate(id, valid);
    }

    /** The container handling a wrapper's calls in the order they were made. */
    method ReceiveAll(calls: seq<Callback>)
      requires Consistent()
      modifies this`wrapperMap, this`isValid
      ensures Consistent()
      ensures wrapperMap == Replay(old(wrapperMap), calls)
    {
      for i := 0 to |calls|
        invariant Consistent()
        invariant wrapperMap == Replay(old(wrapperMap), calls[..i])
      {
        Receive(calls[i]);
        assert calls[..i + 1][..i] == calls[..i];
      }
      assert calls[..|calls|] == calls;
    }

    /**
     * `checkForm`: turns validation mode on, recomputes `isValid`, calls the
     * submit callback (`saved`) iff the form is valid, and otherwise focuses
     * the first invalid child of the registered element when there is one.
     */
    method CheckForm(doc: Document) returns (saved: bool)
      requires Consistent()
      requires el.Some? ==> Within(doc.nodes, el.value)
      modifies this`validating, this`isValid, doc`activeElement
      ensures Consistent() && validating
      ensures saved == isValid && (saved <==> AllValid(wrapperMap))
      ensures !saved && el.Some? && QuerySelector(doc.nodes, el.value.descendants, InvalidOrAriaInvalid).Some?
              ==> doc.activeElement == QuerySelector(doc.nodes, el.value.descendants, InvalidOrAriaInvalid)
      ensures saved || el.None? || QuerySelector(doc.nodes, el.value.descendants, InvalidOrAriaInvalid).None?
              ==> doc.activeElement == old(doc.activeElement)
    {
      validating := true;
      isValid := ValidateWrappers();
      saved := false;
      if isValid {
        saved := true;
      } else if el.Some? {
        var invalidChild := QuerySelector(doc.nodes, el.value.descendants, InvalidOrAriaInvalid);
        if invalidChild.Some? {
          doc.activeElement := invalidChild;
        }
      }
    }
  }
}
