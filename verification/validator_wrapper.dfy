/**
 * `ValidatorWrapper` of addon/components/validator-wrapper.ts: validates the
 * inputs of one field against the browser's constraint validation and a
 * chain of custom validators, marks the inputs, reports the verdict to the
 * container and keeps the error it displays.
 *
 * The asynchronous validation pass is linearised: every `await` is a
 * suspension, numbered from 0 in the order the pass reaches them, and
 * `teardownAt` names the suspension (if any) during which the component is
 * torn down (its `willDestroy` runs and `isDestroyed` turns true).
 */
module ValidatorWrapper {
  import opened Wrappers
  import opened JsValues
  import opened ValidateError
  import opened ArrayHelpers
  import opened Dom
  import opened Registry

  // ---------------------------------------------------------------------
  // Arguments

  /** The model: its keys in `Object.keys` order and their values. */
  datatype ValidationModel = ValidationModel(keys: seq<string>, values: map<string, JsValue>) {
    predicate WellFormed() {
      Distinct(keys) && (set k | k in keys) == values.Keys
    }
  }

  type Model = m: ValidationModel | m.WellFormed() witness ValidationModel([], map[])

  /** Ember's `isEmpty` on the `model` argument; None stands for null or undefined. */
  predicate ModelArgIsEmpty(model: Option<Model>) {
    model.None? || EmberIsEmpty(Object(model.value.values))
  }

  /** A custom validator: the model to the (possibly malformed) value it returns. */
  type Validator = Model -> JsValue

  /** The `validator` argument: absent, one function, or an array of them. */
  datatype ValidatorArg = NoValidator | One(f: Validator) | Many(fs: seq<Validator>)

  /** The `validators` getter. */
  function Validators(arg: ValidatorArg): seq<Validator> {
    match arg
    case NoValidator => []
    case Many(fs) => fs
    case One(f) => [f]
  }

  /** Normalisation keeps every validator in order, drops nothing and is idempotent. */
  lemma ValidatorsNormalised(arg: ValidatorArg)
    ensures |Validators(arg)| == 0 <==> arg.NoValidator? || (arg.Many? && arg.fs == [])
    ensures arg.One? ==> |Validators(arg)| == 1 && Validators(arg)[0] == arg.f
    ensures Validators(Many(Validators(arg))) == Validators(arg)
  {
  }

  // ---------------------------------------------------------------------
  // The custom validator chain

  /** A result that ends the chain: conforming and not empty. */
  predicate Decisive(v: JsValue) {
    IsValidValidationError(v) && !IsEmptyValidationError(AsValidationError(v))
  }

  /** What each validator returns for the model. */
  function Results(vs: seq<Validator>, model: Model): (rs: seq<JsValue>)
    ensures |rs| == |vs|
  {
    seq(|vs|, i requires 0 <= i < |vs| => vs[i](model))
  }

  /** Result `i` is what validator `i` returns for the model. */
  lemma ResultAt(vs: seq<Validator>, model: Model, i: nat)
    requires i < |vs|
    ensures Results(vs, model)[i] == vs[i](model)
  {
  }

  /** The position of the first decisive result. */
  function Winner(rs: seq<JsValue>): (r: Option<nat>)
    ensures r.Some? ==> r.value < |rs| && Decisive(rs[r.value])
  {
    if rs == [] then None
    else if Decisive(rs[0]) then Some(0)
    else match Winner(rs[1..])
      case None => None
      case Some(p) => Some(p + 1)
  }

  /** Every result before the winner is not decisive; without a winner no result is. */
  lemma {:induction false} WinnerIsFirstDecisive(rs: seq<JsValue>)
    ensures Winner(rs).Some? ==> forall k :: 0 <= k < Winner(rs).value ==> !Decisive(rs[k])
    ensures Winner(rs).None? <==> forall k :: 0 <= k < |rs| ==> !Decisive(rs[k])
  {
    if rs != [] && !Decisive(rs[0]) {
      WinnerIsFirstDecisive(rs[1..]);
      forall k | 0 < k < |rs| ensures rs[k] == rs[1..][k - 1] {
      }
    }
  }

  /** How many validators the chain calls: up to and including the winner. */
  function Evaluated(rs: seq<JsValue>): (n: nat)
    ensures n <= |rs|
  {
    match Winner(rs)
    case Some(i) => i + 1
    case None => |rs|
  }

  /** The error the chain settles on: the first decisive result, else `{}`. */
  function ChainResult(rs: seq<JsValue>): ValidationError {
    match Winner(rs)
    case Some(i) => AsValidationError(rs[i])
    case None => map[]
  }

  /** Past `i` non-decisive results the chain calls validator `i`, and stops there when its result is decisive. */
  lemma {:induction false} ChainReaches(rs: seq<JsValue>, i: nat)
    requires i < |rs| && forall k :: 0 <= k < i ==> !Decisive(rs[k])
    ensures Evaluated(rs) >= i + 1
    ensures Decisive(rs[i]) ==> Evaluated(rs) == i + 1 && ChainResult(rs) == AsValidationError(rs[i])
  {
    WinnerIsFirstDecisive(rs);
    match Winner(rs)
    case None =>
    case Some(w) =>
      if Decisive(rs[i]) {
        assert w <= i;
      }
  }

  /** Without a decisive result the chain calls every validator and settles on `{}`. */
  lemma ChainExhausted(rs: seq<JsValue>)
    requires forall k :: 0 <= k < |rs| ==> !Decisive(rs[k])
    ensures Evaluated(rs) == |rs| && ChainResult(rs) == map[]
  {
    WinnerIsFirstDecisive(rs);
  }

  /**
   * The chain skips malformed and empty results and returns the first
   * conforming non-empty one; it is empty exactly when there is none.
   */
  lemma {:induction false} ChainResultMeaning(rs: seq<JsValue>)
    ensures IsEmptyValidationError(ChainResult(rs)) <==> forall k :: 0 <= k < |rs| ==> !Decisive(rs[k])
    ensures ChainResult(rs) == map[]
            || exists i :: 0 <= i < |rs| && Decisive(rs[i]) && ChainResult(rs) == AsValidationError(rs[i])
                           && forall k :: 0 <= k < i ==> !Decisive(rs[k])
  {
    WinnerIsFirstDecisive(rs);
    match Winner(rs)
    case None =>
      EmptyIffNoTruthyValue(map[]);
    case Some(i) =>
      assert Decisive(rs[i]);
  }

  // ---------------------------------------------------------------------
  // Constraint violations

  /** An input whose native constraint check failed (and not through a custom error) for a target name. */
  predicate Violates(c: Control, targets: seq<string>) {
    && c.name.Some? && c.name.value != "" && c.name.value in targets
    && c.constraintApi && !c.CustomError() && !c.IsValid()
  }

  /** The message for a violating input: the factory's, when one is given, else the native one. */
  function ConstraintMessage(c: Control, factory: Option<Control -> string>): Message {
    Text(if factory.Some? then factory.value(c) else c.ValidationMessage())
  }

  /** The error `collectConstraintViolation` builds from `elements`, in order (a later input overwrites). */
  function ConstraintErrors(nodes: seq<Control>, elements: seq<nat>, targets: seq<string>, factory: Option<Control -> string>): ValidationError
    requires AllIn(nodes, elements)
    decreases |elements|
  {
    if elements == [] then map[]
    else
      var e := ConstraintErrors(nodes, elements[..|elements| - 1], targets, factory);
      var c := nodes[elements[|elements| - 1]];
      if Violates(c, targets) then e[c.name.value := ConstraintMessage(c, factory)] else e
  }

  /** The input at position `j` of `elements` violates its constraints under the name `k`. */
  predicate NamedViolation(nodes: seq<Control>, elements: seq<nat>, targets: seq<string>, j: int, k: string) {
    0 <= j < |elements| && elements[j] < |nodes| && Violates(nodes[elements[j]], targets) && nodes[elements[j]].name == Some(k)
  }

  lemma PrefixViolations(nodes: seq<Control>, elements: seq<nat>, targets: seq<string>, n: nat, k: string)
    requires n <= |elements|
    ensures forall j :: 0 <= j < n ==> (NamedViolation(nodes, elements[..n], targets, j, k) <==> NamedViolation(nodes, elements, targets, j, k))
  {
  }

  /** A name has a constraint error iff some input of that name violates its constraints. */
  lemma {:induction false} ConstraintErrorsKeys(nodes: seq<Control>, elements: seq<nat>, targets: seq<string>,
                                                factory: Option<Control -> string>, k: string)
    requires AllIn(nodes, elements)
    ensures k in ConstraintErrors(nodes, elements, targets, factory) <==> exists j :: NamedViolation(nodes, elements, targets, j, k)
    decreases |elements|
  {
    if elements != [] {
      var n := |elements| - 1;
      var c := nodes[elements[n]];
      ConstraintErrorsKeys(nodes, elements[..n], targets, factory, k);
      PrefixViolations(nodes, elements, targets, n, k);
      if k in ConstraintErrors(nodes, elements, targets, factory) {
        if Violates(c, targets) && c.name == Some(k) {
          assert NamedViolation(nodes, elements, targets, n, k);
        } else {
          var j :| NamedViolation(nodes, elements[..n], targets, j, k);
          assert NamedViolation(nodes, elements, targets, j, k);
        }
      }
      if exists j :: NamedViolation(nodes, elements, targets, j, k) {
        var j :| NamedViolation(nodes, elements, targets, j, k);
        if j < n {
          assert NamedViolation(nodes, elements[..n], targets, j, k);
        } else {
          assert Violates(c, targets) && c.name == Some(k);
        }
      }
    }
  }

  /** The message of a constraint error is that of the last input of that name that violates its constraints. */
  lemma {:induction false} ConstraintErrorsLastWins(nodes: seq<Control>, elements: seq<nat>, targets: seq<string>,
                                                    factory: Option<Control -> string>, k: string)
    requires AllIn(nodes, elements)
    requires k in ConstraintErrors(nodes, elements, targets, factory)
    ensures exists j :: NamedViolation(nodes, elements, targets, j, k)
                        && ConstraintErrors(nodes, elements, targets, factory)[k] == ConstraintMessage(nodes[elements[j]], factory)
                        && forall j' :: j < j' ==> !NamedViolation(nodes, elements, targets, j', k)
    decreases |elements|
  {
    var n := |elements| - 1;
    var c := nodes[elements[n]];
    PrefixViolations(nodes, elements, targets, n, k);
    if Violates(c, targets) && c.name == Some(k) {
      assert NamedViolation(nodes, elements, targets, n, k);
    } else {
      ConstraintErrorsLastWins(nodes, elements[..n], targets, factory, k);
      var j :| NamedViolation(nodes, elements[..n], targets, j, k)
               && ConstraintErrors(nodes, elements[..n], targets, factory)[k] == ConstraintMessage(nodes[elements[..n][j]], factory)
               && forall j' :: j < j' ==> !NamedViolation(nodes, elements[..n], targets, j', k);
      assert NamedViolation(nodes, elements, targets, j, k);
      forall j' | j < j' ensures !NamedViolation(nodes, elements, targets, j', k) {
        if j' < n {
          assert !NamedViolation(nodes, elements[..n], targets, j', k);
        }
      }
    }
  }

  /** Only target names get constraint errors. */
  lemma ConstraintKeysAreTargets(nodes: seq<Control>, elements: seq<nat>, targets: seq<string>, factory: Option<Control -> string>)
    requires AllIn(nodes, elements)
    ensures ConstraintErrors(nodes, elements, targets, factory).Keys <= set n | n in targets
  {
    forall k | k in ConstraintErrors(nodes, elements, targets, factory) ensures k in targets {
      ConstraintErrorsKeys(nodes, elements, targets, factory, k);
    }
  }

  /** `anyFieldPassedConstraintValidation`. */
  predicate RunsCustomChain(targets: seq<string>, constraint: ValidationError) {
    |targets| == 0 || |targets| > |constraint|
  }

  lemma {:induction false} DistinctCardinality<T>(s: seq<T>)
    requires Distinct(s)
    ensures |set x | x in s| == |s|
  {
    if s != [] {
      var rest := s[1..];
      DistinctCardinality(rest);
      assert (set x | x in s) == {s[0]} + (set x | x in rest);
      assert s[0] !in rest;
    }
  }

  lemma SubsetCardinality<T>(a: set<T>, b: set<T>)
    requires a <= b
    ensures |a| <= |b|
    ensures |a| == |b| ==> a == b
  {
    assert b == a + (b - a);
    if |a| == |b| {
      assert |b - a| == 0;
    }
  }

  /**
   * The custom chain is skipped exactly when there are target names and
   * every one of them already has a constraint error.
   */
  lemma SkipIffEveryTargetFailed(targets: seq<string>, constraint: ValidationError)
    requires Distinct(targets)
    requires constraint.Keys <= set n | n in targets
    ensures !RunsCustomChain(targets, constraint) <==> |targets| > 0 && forall n :: n in targets ==> n in constraint
  {
    var names := set n | n in targets;
    DistinctCardinality(targets);
    SubsetCardinality(constraint.Keys, names);
    if |targets| > 0 && forall n :: n in targets ==> n in constraint {
      assert names <= constraint.Keys;
      assert constraint.Keys == names;
    }
  }

  // ---------------------------------------------------------------------
  // Custom validity marks on the inputs

  /** What `setCustomValidity` receives for a name: the text of its message, or "" when it has none. */
  function CustomValidityText(err: ValidationError, n: string): string {
    if n in err then MessageText(err[n]) else ""
  }

  /** Marks the first element named `n` (when it has the constraint API) with the message for `n`. */
  function MarkName(nodes: seq<Control>, root: Subtree, err: ValidationError, n: string): (r: seq<Control>)
    requires Within(nodes, root)
    ensures SameSkeleton(nodes, r)
  {
    match QuerySelector(nodes, root.descendants, NameIs(n))
    case None => nodes
    case Some(i) =>
      if nodes[i].constraintApi then nodes[i := nodes[i].(customMessage := CustomValidityText(err, n))] else nodes
  }

  /** The loop over the target names, in order. */
  function MarkNames(nodes: seq<Control>, root: Subtree, err: ValidationError, names: seq<string>): (r: seq<Control>)
    requires Within(nodes, root)
    ensures SameSkeleton(nodes, r)
    decreases |names|
  {
    if names == [] then nodes
    else
      var before := MarkNames(nodes, root, err, names[..|names| - 1]);
      MarkName(before, root, err, names[|names| - 1])
  }

  /**
   * `setCustomValidity`: with target names, marks each target's input; with
   * none, sets `aria-invalid` on the first contenteditable element from
   * whether any message is truthy.
   */
  function ApplyCustomValidity(nodes: seq<Control>, root: Subtree, targets: seq<string>, err: ValidationError): (r: seq<Control>)
    requires Within(nodes, root)
    ensures SameSkeleton(nodes, r)
  {
    if |targets| > 0 then MarkNames(nodes, root, err, targets)
    else match QuerySelector(nodes, root.descendants, ContentEditable)
      case None => nodes
      case Some(i) => nodes[i := nodes[i].(ariaInvalid := Some(if IsEmptyValidationError(err) then "false" else "true"))]
  }

  /** Every target name is carried by some element of the subtree (else `setCustomValidity` throws). */
  predicate TargetsPresent(nodes: seq<Control>, root: Subtree, targets: seq<string>)
    requires Within(nodes, root)
  {
    forall n :: n in targets ==> QuerySelector(nodes, root.descendants, NameIs(n)).Some?
  }

  lemma SameSkeletonWithin(a: seq<Control>, b: seq<Control>, root: Subtree)
    requires SameSkeleton(a, b) && Within(a, root)
    ensures Within(b, root)
  {
  }

  lemma SameSkeletonTargetsPresent(a: seq<Control>, b: seq<Control>, root: Subtree, targets: seq<string>)
    requires SameSkeleton(a, b) && Within(a, root) && TargetsPresent(a, root, targets)
    ensures Within(b, root) && TargetsPresent(b, root, targets)
  {
    forall n | n in targets ensures QuerySelector(b, root.descendants, NameIs(n)).Some? {
      SameSkeletonQuery(a, b, root.descendants, NameIs(n));
    }
  }

  /** Marking one name writes only the element that name selects. */
  lemma MarkNameFrame(nodes: seq<Control>, root: Subtree, err: ValidationError, n: string, i: nat)
    requires Within(nodes, root) && i < |nodes| && nodes[i].name != Some(n)
    ensures MarkName(nodes, root, err, n)[i] == nodes[i]
  {
  }

  /**
   * After marking, the input of each target name carries exactly the text
   * of that name's message ("" clears it), whatever was marked before.
   */
  lemma {:induction false} MarkNamesMeaning(nodes: seq<Control>, root: Subtree, err: ValidationError, names: seq<string>, k: nat)
    requires Within(nodes, root) && Distinct(names)
    requires k < |names|
    requires QuerySelector(nodes, root.descendants, NameIs(names[k])).Some?
    requires nodes[QuerySelector(nodes, root.descendants, NameIs(names[k])).value].constraintApi
    ensures MarkNames(nodes, root, err, names)[QuerySelector(nodes, root.descendants, NameIs(names[k])).value].customMessage
            == CustomValidityText(err, names[k])
    decreases |names|
  {
    var i := QuerySelector(nodes, root.descendants, NameIs(names[k])).value;
    var m := |names| - 1;
    var init := names[..m];
    var before := MarkNames(nodes, root, err, init);
    SameSkeletonAt(nodes, before, i);
    if k == m {
      SameSkeletonQuery(nodes, before, root.descendants, NameIs(names[k]));
    } else {
      assert init[k] == names[k];
      assert names[m] != names[k];
      MarkNamesMeaning(nodes, root, err, init, k);
      MarkNameFrame(before, root, err, names[m], i);
    }
  }

  // ---------------------------------------------------------------------
  // Target input names

  /** The truthy `name` attributes of the inputs and selects of the subtree. */
  function InputNames(nodes: seq<Control>, root: Subtree): set<string>
    requires Within(nodes, root)
  {
    var inputs := QuerySelectorAll(nodes, root.descendants, InputOrSelect);
    set i | i in inputs && i < |nodes| && nodes[i].name.Some? && nodes[i].name.value != "" :: nodes[i].name.value
  }

  /** The target names: model keys in model order that some input of the subtree carries. */
  lemma CollectedTargets(nodes: seq<Control>, root: Subtree, model: Model)
    requires Within(nodes, root)
    ensures Distinct(Intersection(model.keys, InputNames(nodes, root)))
    ensures forall n :: n in Intersection(model.keys, InputNames(nodes, root)) <==> n in model.keys && n in InputNames(nodes, root)
    ensures TargetsPresent(nodes, root, Intersection(model.keys, InputNames(nodes, root)))
  {
    var targets := Intersection(model.keys, InputNames(nodes, root));
    IntersectionDistinct(model.keys, InputNames(nodes, root));
    forall n | n in targets ensures QuerySelector(nodes, root.descendants, NameIs(n)).Some? {
      var inputs := QuerySelectorAll(nodes, root.descendants, InputOrSelect);
      var i :| i in inputs && i < |nodes| && nodes[i].name.Some? && nodes[i].name.value != "" && nodes[i].name.value == n;
      assert i in root.descendants;
      var j :| 0 <= j < |root.descendants| && root.descendants[j] == i;
      assert Matches(nodes[root.descendants[j]], NameIs(n));
      QuerySelectorNone(nodes, root.descendants, NameIs(n));
    }
  }

  // ---------------------------------------------------------------------
  // One validation pass, planned from the state it starts in

  /** What a pass computes when it is not cut short. */
  datatype Plan = Plan(
    nodes: seq<Control>,              // the document after clearing the previous custom marks
    constraint: ValidationError,      // errorFromConstraintValidation
    runs: bool,                       // anyFieldPassedConstraintValidation
    chain: bool,                      // the custom chain is awaited: it runs and there are validators
    custom: ValidationError,          // the chain's result ({} without validators)
    final: ValidationError,           // the error the pass settles on
    evaluated: nat,                   // how many validators the chain calls
    suspensions: nat)                 // how many awaits the pass goes through

  /** The pass that starts from these inputs, with `rs` the validators' results. */
  function PlanPass(hadCustomError: bool, nodes: seq<Control>, root: Subtree, targets: seq<string>,
                    factory: Option<Control -> string>, rs: seq<JsValue>): (p: Plan)
    requires Within(nodes, root)
    ensures Within(p.nodes, root) && SameSkeleton(nodes, p.nodes)
    ensures p.runs <==> |targets| == 0 || |targets| > |p.constraint|
    ensures p.suspensions == 0 <==> !p.runs
    ensures !p.runs ==> p.final == p.constraint && p.custom == map[]
    ensures p.runs ==> p.final == p.custom + p.constraint
  {
    var cleared := if hadCustomError then ApplyCustomValidity(nodes, root, targets, map[]) else nodes;
    var constraint := ConstraintErrors(cleared, QuerySelectorAll(cleared, root.descendants, InputOrSelect), targets, factory);
    var runs := RunsCustomChain(targets, constraint);
    var custom := if runs && |rs| > 0 then ChainResult(rs) else map[];
    var final := if runs then custom + constraint else constraint;
    var suspensions := if !runs then 0 else if |rs| == 0 then 1 else Evaluated(rs) + 2;
    Plan(cleared, constraint, runs, runs && |rs| > 0, custom, final, Evaluated(rs), suspensions)
  }

  /** The fields of a planned pass, one by one. */
  lemma PlanPassFields(hadCustomError: bool, nodes: seq<Control>, root: Subtree, targets: seq<string>,
                       factory: Option<Control -> string>, rs: seq<JsValue>)
    requires Within(nodes, root)
    ensures var p := PlanPass(hadCustomError, nodes, root, targets, factory, rs);
            && p.nodes == (if hadCustomError then ApplyCustomValidity(nodes, root, targets, map[]) else nodes)
            && p.constraint == ConstraintErrors(p.nodes, QuerySelectorAll(p.nodes, root.descendants, InputOrSelect), targets, factory)
            && p.runs == RunsCustomChain(targets, p.constraint)
            && p.chain == (p.runs && |rs| > 0)
            && p.custom == (if p.runs && |rs| > 0 then ChainResult(rs) else map[])
            && p.evaluated == Evaluated(rs)
            && p.suspensions == (if !p.runs then 0 else if |rs| == 0 then 1 else Evaluated(rs) + 2)
  {
  }

  /**
   * With distinct targets, a pass runs the custom chain exactly when there
   * are no targets or some target passed its constraint check.
   */
  lemma PlanRunsIffSomeTargetPassed(hadCustomError: bool, nodes: seq<Control>, root: Subtree, targets: seq<string>,
                                    factory: Option<Control -> string>, rs: seq<JsValue>)
    requires Within(nodes, root) && Distinct(targets)
    ensures var p := PlanPass(hadCustomError, nodes, root, targets, factory, rs);
            !p.runs <==> |targets| > 0 && forall n :: n in targets ==> n in p.constraint
  {
    var p := PlanPass(hadCustomError, nodes, root, targets, factory, rs);
    PlanPassFields(hadCustomError, nodes, root, targets, factory, rs);
    ConstraintKeysAreTargets(p.nodes, QuerySelectorAll(p.nodes, root.descendants, InputOrSelect), targets, factory);
    SkipIffEveryTargetFailed(targets, p.constraint);
  }

  /** Whether the component is torn down during one of the first `n` suspensions of a pass. */
  predicate TornDown(wasDestroyed: bool, teardownAt: Option<nat>, n: nat) {
    !wasDestroyed && teardownAt.Some? && teardownAt.value < n
  }

  /**
   * The verdict a completed pass reports: constraint errors win per key, so
   * the field is valid iff no constraint message is truthy and no custom
   * message survives on a key without a constraint error.
   */
  lemma {:induction false} PassVerdict(p: Plan)
    requires p.final == p.custom + p.constraint
    ensures forall k :: k in p.constraint ==> p.final[k] == p.constraint[k]
    ensures forall k :: k in p.custom && k !in p.constraint ==> p.final[k] == p.custom[k]
    ensures IsEmptyValidationError(p.final) <==>
            IsEmptyValidationError(p.constraint) && forall k :: k in p.custom && k !in p.constraint ==> IsFalsy(p.custom[k])
  {
    OverlayEmpty(p.custom, p.constraint);
  }

  // ---------------------------------------------------------------------
  // Calls into the container

  /** The `unregisterId` call `willDestroy` makes: none without the callback or without an id. */
  function TeardownCalls(hasUnregisterId: bool, wrapperId: Option<nat>): seq<Callback> {
    if hasUnregisterId && wrapperId.Some? then [Unregister(wrapperId.value)] else []
  }

  /** The `onWrapperValidate` call reporting `error`: none without the callback or without an id. */
  function ReportCalls(hasOnWrapperValidate: bool, wrapperId: Option<nat>, error: ValidationError): seq<Callback> {
    if hasOnWrapperValidate && wrapperId.Some? then [Report(wrapperId.value, IsEmptyValidationError(error))] else []
  }

  /**
   * A report that follows the unregistration `willDestroy` made puts the
   * id back into the container's map, where it stays, since `willDestroy`
   * runs once; without that report the id stays out.
   */
  lemma LateReportLeavesPhantomEntry(m: WrapperMap, id: nat, error: ValidationError, later: seq<Callback>)
    requires forall j :: 0 <= j < |later| ==> !later[j].Unregister?
    ensures id in Replay(m, TeardownCalls(true, Some(id)) + ReportCalls(true, Some(id), error) + later)
    ensures (forall j :: 0 <= j < |later| ==> later[j].id != id) ==> id !in Replay(m, TeardownCalls(true, Some(id)) + later)
  {
    UnregisterThenReport(m, id, later, IsEmptyValidationError(error));
    assert TeardownCalls(true, Some(id)) + ReportCalls(true, Some(id), error) == [Unregister(id), Report(id, IsEmptyValidationError(error))];
  }

  // ---------------------------------------------------------------------
  // The component

  class ValidatorWrapper {
    // Arguments
    var model: Model
    var validating: bool
    const validator: ValidatorArg
    const customErrorFactory: Option<Control -> string>
    /** Whether the `unregisterId` callback was passed. */
    const hasUnregisterId: bool
    /** Whether the `onWrapperValidate` callback was passed. */
    const hasOnWrapperValidate: bool

    // State
    var error: ValidationError
    var hadCustomError: bool
    var loading: bool
    var wrapperId: Option<nat>
    var targetInputNames: seq<string>
    /** `isDestroying || isDestroyed`. */
    var destroyed: bool
    /** The argument of the debounced call waiting to run (the last trigger wins). */
    var pending: Option<Subtree>
    /** The calls made to `unregisterId` and `onWrapperValidate`, oldest first. */
    var calls: seq<Callback>

    /** The target names never repeat. */
    ghost predicate Valid()
      reads this`targetInputNames
    {
      Distinct(targetInputNames)
    }

    constructor (model: Model, validating: bool, validator: ValidatorArg, customErrorFactory: Option<Control -> string>,
                 hasUnregisterId: bool, hasOnWrapperValidate: bool)
      requires !ModelArgIsEmpty(Some(model))
      ensures Valid()
      ensures this.model == model && this.validating == validating && this.validator == validator
      ensures this.customErrorFactory == customErrorFactory
      ensures this.hasUnregisterId == hasUnregisterId && this.hasOnWrapperValidate == hasOnWrapperValidate
      ensures error == map[] && !hadCustomError && !loading && wrapperId == None
      ensures targetInputNames == [] && !destroyed && pending == None && calls == []
    {
      this.model := model;
      this.validating := validating;
      this.validator := validator;
      this.customErrorFactory := customErrorFactory;
      this.hasUnregisterId := hasUnregisterId;
      this.hasOnWrapperValidate := hasOnWrapperValidate;
      error := map[];
      hadCustomError := false;
      loading := false;
      wrapperId := None;
      targetInputNames := [];
      destroyed := false;
      pending := None;
      calls := [];
    }

    /** Construction throws when the `model` argument is empty for Ember's `isEmpty`. */
    static method Create(model: Option<Model>, validating: bool, validator: ValidatorArg,
                         customErrorFactory: Option<Control -> string>, hasUnregisterId: bool, hasOnWrapperValidate: bool)
      returns (w: ValidatorWrapper?)
      ensures w == null <==> ModelArgIsEmpty(model)
      ensures w != null ==> fresh(w) && w.Valid() && w.model == model.value && w.validator == validator
                            && w.error == map[] && w.wrapperId == None && !w.destroyed && w.calls == []
    {
      if ModelArgIsEmpty(model) {
        w := null;
      } else {
        w := new ValidatorWrapper(model.value, validating, validator, customErrorFactory, hasUnregisterId, hasOnWrapperValidate);
      }
    }

    /** The `errorMessage` getter: the error while validating, `{}` otherwise. */
    function ErrorMessage(): (r: ValidationError)
      reads this`validating, this`error
      ensures validating ==> r == error
      ensures !validating ==> r == map[] && IsEmptyValidationError(r)
    {
      if validating then error else map[]
    }

    /** What the validators return for the current model, in order. */
    function Chain(): (rs: seq<JsValue>)
      reads this`model
      ensures |rs| == |Validators(validator)|
    {
      Results(Validators(validator), model)
    }

    /** `willDestroy`: marks the component destroyed and unregisters its id, if it has one. */
    method WillDestroy()
      modifies this`destroyed, this`calls
      ensures destroyed
      ensures calls == old(calls) + TeardownCalls(hasUnregisterId, wrapperId)
    {
      destroyed := true;
      if wrapperId.Some? && hasUnregisterId {
        calls := calls + [Unregister(wrapperId.value)];
      }
    }

    /** One `await`: the environment may tear the component down while it is suspended. */
    method Suspend(step: nat, teardownAt: Option<nat>)
      modifies this`destroyed, this`calls
      ensures destroyed == (old(destroyed) || (teardownAt.Some? && teardownAt.value == step))
      ensures calls == old(calls) + (if !old(destroyed) && teardownAt.Some? && teardownAt.value == step
                                     then TeardownCalls(hasUnregisterId, wrapperId) else [])
    {
      if !destroyed && teardownAt.Some? && teardownAt.value == step {
        WillDestroy();
      }
    }

    /**
     * `customValidate`: calls the validators in order, skipping malformed
     * and empty results, and returns the first conforming non-empty one (or
     * `{}`); `loading` is true during the chain and false after a normal
     * return. When the component is torn down during the chain it returns
     * `{}` at once and leaves `loading` set.
     */
    method CustomValidate(teardownAt: Option<nat>, ghost rs: seq<JsValue>) returns (result: ValidationError, suspensions: nat)
      requires rs == Chain()
      modifies this`loading, this`destroyed, this`calls
      ensures destroyed == (old(destroyed) || TornDown(old(destroyed), teardownAt, Evaluated(rs)))
      ensures calls == old(calls) + (if TornDown(old(destroyed), teardownAt, Evaluated(rs))
                                     then TeardownCalls(hasUnregisterId, wrapperId) else [])
      ensures !destroyed ==> result == ChainResult(rs) && !loading && suspensions == Evaluated(rs)
      ensures destroyed && |rs| > 0 ==> result == map[] && loading
    {
      var validators := Validators(validator);
      loading := true;
      var i := 0;
      while i < |validators|
        invariant 0 <= i <= |validators|
        invariant loading && calls == old(calls)
        invariant forall k :: 0 <= k < i ==> !Decisive(rs[k])
        invariant destroyed == old(destroyed)
        invariant i > 0 ==> !destroyed && (teardownAt.None? || teardownAt.value >= i)
      {
        var r := validators[i](model);
        ResultAt(validators, model, i);
        Suspend(i, teardownAt);
        if destroyed {
          ChainReaches(rs, i);
          return map[], i + 1;
        }
        if IsValidValidationError(r) {
          var e := AsValidationError(r);
          if !IsEmptyValidationError(e) {
            ChainReaches(rs, i);
            loading := false;
            return e, i + 1;
          }
        }
        i := i + 1;
      }
      ChainExhausted(rs);
      loading := false;
      return map[], |validators|;
    }

    /**
     * `setCustomValidity`: marks every target input with its message, or,
     * without target names, sets `aria-invalid` on the contenteditable child.
     */
    method SetCustomValidity(doc: Document, root: Subtree, err: ValidationError)
      requires Within(doc.nodes, root) && TargetsPresent(doc.nodes, root, targetInputNames)
      modifies doc`nodes
      ensures doc.nodes == ApplyCustomValidity(old(doc.nodes), root, targetInputNames, err)
    {
      if |targetInputNames| > 0 {
        for i := 0 to |targetInputNames|
          invariant doc.nodes == MarkNames(old(doc.nodes), root, err, targetInputNames[..i])
        {
          var inputName := targetInputNames[i];
          ghost var before := doc.nodes;
          SameSkeletonTargetsPresent(old(doc.nodes), before, root, targetInputNames);
          var inputElement := QuerySelector(doc.nodes, root.descendants, NameIs(inputName));
          if doc.nodes[inputElement.value].constraintApi {
            doc.nodes := doc.nodes[inputElement.value := doc.nodes[inputElement.value].(customMessage := CustomValidityText(err, inputName))];
          }
          assert targetInputNames[..i + 1][..i] == targetInputNames[..i];
        }
        assert targetInputNames[..|targetInputNames|] == targetInputNames;
      } else {
        var customInputElement := QuerySelector(doc.nodes, root.descendants, ContentEditable);
        if customInputElement.Some? {
          var isValid := IsEmptyValidationError(err);
          doc.nodes := doc.nodes[customInputElement.value :=
            doc.nodes[customInputElement.value].(ariaInvalid := Some(if isValid then "false" else "true"))];
        }
      }
    }

    /**
     * `collectConstraintViolation`: an entry for every target name whose
     * input or select fails its native constraints without a custom error.
     */
    method CollectConstraintViolation(doc: Document, root: Subtree) returns (error: ValidationError)
      requires Within(doc.nodes, root)
      ensures error == ConstraintErrors(doc.nodes, QuerySelectorAll(doc.nodes, root.descendants, InputOrSelect),
                                        targetInputNames, customErrorFactory)
    {
      var elements := QuerySelectorAll(doc.nodes, root.descendants, InputOrSelect);
      error := map[];
      for i := 0 to |elements|
        invariant error == ConstraintErrors(doc.nodes, elements[..i], targetInputNames, customErrorFactory)
      {
        var element := doc.nodes[elements[i]];
        var name := element.name.GetOr("");
        if name != "" && name in targetInputNames && element.constraintApi && !element.CustomError() && !element.IsValid() {
          if customErrorFactory.Some? {
            error := error[element.NameProperty() := Text(customErrorFactory.value(element))];
          } else {
            error := error[element.NameProperty() := Text(element.ValidationMessage())];
          }
        }
        assert elements[..i + 1][..i] == elements[..i];
      }
      assert elements[..|elements|] == elements;
    }

    /** `collectInputNames`: the model keys, in model order, that name an input or select of the subtree. */
    method CollectInputNames(doc: Document, root: Subtree)
      requires Within(doc.nodes, root)
      modifies this`targetInputNames
      ensures Valid()
      ensures targetInputNames == Intersection(model.keys, InputNames(doc.nodes, root))
      ensures TargetsPresent(doc.nodes, root, targetInputNames)
    {
      targetInputNames := Intersection(model.keys, InputNames(doc.nodes, root));
      CollectedTargets(doc.nodes, root, model);
    }

    /** The debounced `contextualValidator`: only the last trigger's argument is kept. */
    method ContextualValidator(root: Subtree)
      modifies this`pending
      ensures pending == Some(root)
    {
      pending := Some(root);
    }

    /**
     * `onInsert`: keeps the id `registerId` handed out (`registered`, None
     * when the callback was not passed), collects the target names and
     * schedules a pass.
     */
    method OnInsert(doc: Document, root: Subtree, registered: Option<nat>)
      requires Within(doc.nodes, root)
      modifies this`wrapperId, this`targetInputNames, this`pending
      ensures Valid()
      ensures wrapperId == registered
      ensures targetInputNames == Intersection(model.keys, InputNames(doc.nodes, root))
      ensures TargetsPresent(doc.nodes, root, targetInputNames)
      ensures pending == Some(root)
    {
      wrapperId := registered;
      CollectInputNames(doc, root);
      ContextualValidator(root);
    }

    /** `onReceiveProperties`: recollects the target names and schedules a pass. */
    method OnReceiveProperties(doc: Document, root: Subtree)
      requires Within(doc.nodes, root)
      modifies this`targetInputNames, this`pending
      ensures Valid()
      ensures targetInputNames == Intersection(model.keys, InputNames(doc.nodes, root))
      ensures TargetsPresent(doc.nodes, root, targetInputNames)
      ensures pending == Some(root)
    {
      CollectInputNames(doc, root);
      ContextualValidator(root);
    }

    /**
     * The call of `onWrapperValidate` at the end of a pass, made only when
     * the callback was passed, an id was assigned and the component is
     * still alive.
     */
    method ReportValidity(error: ValidationError)
      modifies this`calls
      ensures calls == old(calls) + (if destroyed then [] else ReportCalls(hasOnWrapperValidate, wrapperId, error))
    {
      if hasOnWrapperValidate && wrapperId.Some? && !destroyed {
        calls := calls + [Report(wrapperId.value, IsEmptyValidationError(error))];
      }
    }

    /**
     * The report as the source writes it: the liveness check guards only the
     * branch that awaited the custom chain, so a pass that starts after
     * teardown and skips the chain still reports.
     */
    method ReportValidityAsWritten(error: ValidationError)
      modifies this`calls
      ensures calls == old(calls) + ReportCalls(hasOnWrapperValidate, wrapperId, error)
    {
      if hasOnWrapperValidate && wrapperId.Some? {
        calls := calls + [Report(wrapperId.value, IsEmptyValidationError(error))];
      }
    }

    /**
     * `_contextualValidator`, one validation pass: clear the previous custom
     * marks, collect constraint errors, run the custom chain unless every
     * target already failed, mark the inputs, report the verdict and publish
     * the error. A teardown before or during the pass abandons everything
     * after it; the report is guarded on liveness in both branches (the
     * source guards only the branch that awaits the chain, see
     * `ContextualValidateAsWritten`).
     */
    method ContextualValidate(doc: Document, root: Subtree, teardownAt: Option<nat>) returns (ghost p: Plan)
      requires Valid() && Within(doc.nodes, root)
      requires hadCustomError || |Validators(validator)| > 0 ==> TargetsPresent(doc.nodes, root, targetInputNames)
      modifies this`hadCustomError, this`loading, this`destroyed, this`error, this`calls, doc`nodes
      ensures p == PlanPass(old(hadCustomError), old(doc.nodes), root, targetInputNames, customErrorFactory, old(Chain()))
      ensures !p.runs <==> |targetInputNames| > 0 && forall n :: n in targetInputNames ==> n in p.constraint
      ensures destroyed == (old(destroyed) || TornDown(old(destroyed), teardownAt, p.suspensions))
      ensures error == if destroyed then old(error) else p.final
      ensures var marked := p.chain && !old(destroyed) && !TornDown(old(destroyed), teardownAt, p.evaluated + 1);
              && doc.nodes == (if marked then ApplyCustomValidity(p.nodes, root, targetInputNames, p.custom) else p.nodes)
              && hadCustomError == (old(hadCustomError) || marked)
      ensures loading == if p.chain
                         then old(destroyed) || TornDown(old(destroyed), teardownAt, p.evaluated)
                         else old(loading)
      ensures calls == old(calls) + (if TornDown(old(destroyed), teardownAt, p.suspensions) then TeardownCalls(hasUnregisterId, wrapperId)
                                     else if destroyed then []
                                     else ReportCalls(hasOnWrapperValidate, wrapperId, p.final))
    {
      ghost var rs := Chain();
      p := PlanPass(hadCustomError, doc.nodes, root, targetInputNames, customErrorFactory, rs);
      PlanRunsIffSomeTargetPassed(hadCustomError, doc.nodes, root, targetInputNames, customErrorFactory, rs);
      ClearPreviousMarks(doc, root);
      if hadCustomError {
        SameSkeletonTargetsPresent(old(doc.nodes), doc.nodes, root, targetInputNames);
      }
      var errorFromConstraintValidation := CollectConstraintViolation(doc, root);
      PlanPassFields(old(hadCustomError), old(doc.nodes), root, targetInputNames, customErrorFactory, rs);
      Settle(doc, root, teardownAt, errorFromConstraintValidation, p, rs);
    }

    /**
     * `_contextualValidator` as the source writes it: a pass that starts
     * after teardown and skips the custom chain still reports to the
     * container; every other outcome is that of `ContextualValidate`.
     */
    method ContextualValidateAsWritten(doc: Document, root: Subtree, teardownAt: Option<nat>) returns (ghost p: Plan)
      requires Valid() && Within(doc.nodes, root)
      requires hadCustomError || |Validators(validator)| > 0 ==> TargetsPresent(doc.nodes, root, targetInputNames)
      modifies this`hadCustomError, this`loading, this`destroyed, this`error, this`calls, doc`nodes
      ensures p == PlanPass(old(hadCustomError), old(doc.nodes), root, targetInputNames, customErrorFactory, old(Chain()))
      ensures !p.runs <==> |targetInputNames| > 0 && forall n :: n in targetInputNames ==> n in p.constraint
      ensures destroyed == (old(destroyed) || TornDown(old(destroyed), teardownAt, p.suspensions))
      ensures error == if destroyed then old(error) else p.final
      ensures var marked := p.chain && !old(destroyed) && !TornDown(old(destroyed), teardownAt, p.evaluated + 1);
              && doc.nodes == (if marked then ApplyCustomValidity(p.nodes, root, targetInputNames, p.custom) else p.nodes)
              && hadCustomError == (old(hadCustomError) || marked)
      ensures loading == if p.chain
                         then old(destroyed) || TornDown(old(destroyed), teardownAt, p.evaluated)
                         else old(loading)
      ensures calls == old(calls) + (if TornDown(old(destroyed), teardownAt, p.suspensions) then TeardownCalls(hasUnregisterId, wrapperId)
                                     else if old(destroyed) && p.runs then []
                                     else ReportCalls(hasOnWrapperValidate, wrapperId, p.final))
    {
      ghost var rs := Chain();
      p := PlanPass(hadCustomError, doc.nodes, root, targetInputNames, customErrorFactory, rs);
      PlanRunsIffSomeTargetPassed(hadCustomError, doc.nodes, root, targetInputNames, customErrorFactory, rs);
      ClearPreviousMarks(doc, root);
      if hadCustomError {
        SameSkeletonTargetsPresent(old(doc.nodes), doc.nodes, root, targetInputNames);
      }
      var errorFromConstraintValidation := CollectConstraintViolation(doc, root);
      PlanPassFields(old(hadCustomError), old(doc.nodes), root, targetInputNames, customErrorFactory, rs);
      SettleAsWritten(doc, root, teardownAt, errorFromConstraintValidation, p, rs);
    }

    /** The start of a pass: the marks of the previous pass are cleared when it left any. */
    method ClearPreviousMarks(doc: Document, root: Subtree)
      requires Within(doc.nodes, root) && (hadCustomError ==> TargetsPresent(doc.nodes, root, targetInputNames))
      modifies doc`nodes
      ensures doc.nodes == if hadCustomError then ApplyCustomValidity(old(doc.nodes), root, targetInputNames, map[]) else old(doc.nodes)
    {
      if hadCustomError {
        SetCustomValidity(doc, root, map[]);
      }
    }

    /**
     * The rest of a pass, once the constraint errors are known: the custom
     * chain (unless every target failed), the report and the publication.
     */
    method Settle(doc: Document, root: Subtree, teardownAt: Option<nat>, errorFromConstraintValidation: ValidationError,
                  ghost p: Plan, ghost rs: seq<JsValue>)
      requires rs == Chain() && p.evaluated == Evaluated(rs)
      requires doc.nodes == p.nodes && errorFromConstraintValidation == p.constraint
      requires p.runs == (|targetInputNames| == 0 || |targetInputNames| > |p.constraint|)
      requires p.chain == (p.runs && |rs| > 0)
      requires p.custom == (if p.chain then ChainResult(rs) else map[])
      requires p.final == (if p.runs then p.custom + p.constraint else p.constraint)
      requires p.suspensions == (if !p.runs then 0 else if |rs| == 0 then 1 else Evaluated(rs) + 2)
      requires Within(doc.nodes, root) && (|rs| > 0 ==> TargetsPresent(doc.nodes, root, targetInputNames))
      modifies this`hadCustomError, this`loading, this`destroyed, this`error, this`calls, doc`nodes
      ensures destroyed == (old(destroyed) || TornDown(old(destroyed), teardownAt, p.suspensions))
      ensures error == if destroyed then old(error) else p.final
      ensures var marked := p.chain && !old(destroyed) && !TornDown(old(destroyed), teardownAt, p.evaluated + 1);
              && doc.nodes == (if marked then ApplyCustomValidity(p.nodes, root, targetInputNames, p.custom) else p.nodes)
              && hadCustomError == (old(hadCustomError) || marked)
      ensures loading == if p.chain
                         then old(destroyed) || TornDown(old(destroyed), teardownAt, p.evaluated)
                         else old(loading)
      ensures calls == old(calls) + (if TornDown(old(destroyed), teardownAt, p.suspensions) then TeardownCalls(hasUnregisterId, wrapperId)
                                     else if destroyed then []
                                     else ReportCalls(hasOnWrapperValidate, wrapperId, p.final))
    {
      var anyFieldPassedConstraintValidation :=
        |targetInputNames| == 0 || |targetInputNames| > |errorFromConstraintValidation|;
      if anyFieldPassedConstraintValidation {
        SettleWithCustomChain(doc, root, teardownAt, errorFromConstraintValidation, p, rs);
      } else {
        Publish(errorFromConstraintValidation);
      }
    }

    /** `Settle` as the source writes it: the branch that skips the chain reports whether or not the component is alive. */
    method SettleAsWritten(doc: Document, root: Subtree, teardownAt: Option<nat>, errorFromConstraintValidation: ValidationError,
                           ghost p: Plan, ghost rs: seq<JsValue>)
      requires rs == Chain() && p.evaluated == Evaluated(rs)
      requires doc.nodes == p.nodes && errorFromConstraintValidation == p.constraint
      requires p.runs == (|targetInputNames| == 0 || |targetInputNames| > |p.constraint|)
      requires p.chain == (p.runs && |rs| > 0)
      requires p.custom == (if p.chain then ChainResult(rs) else map[])
      requires p.final == (if p.runs then p.custom + p.constraint else p.constraint)
      requires p.suspensions == (if !p.runs then 0 else if |rs| == 0 then 1 else Evaluated(rs) + 2)
      requires Within(doc.nodes, root) && (|rs| > 0 ==> TargetsPresent(doc.nodes, root, targetInputNames))
      modifies this`hadCustomError, this`loading, this`destroyed, this`error, this`calls, doc`nodes
      ensures destroyed == (old(destroyed) || TornDown(old(destroyed), teardownAt, p.suspensions))
      ensures error == if destroyed then old(error) else p.final
      ensures var marked := p.chain && !old(destroyed) && !TornDown(old(destroyed), teardownAt, p.evaluated + 1);
              && doc.nodes == (if marked then ApplyCustomValidity(p.nodes, root, targetInputNames, p.custom) else p.nodes)
              && hadCustomError == (old(hadCustomError) || marked)
      ensures loading == if p.chain
                         then old(destroyed) || TornDown(old(destroyed), teardownAt, p.evaluated)
                         else old(loading)
      ensures calls == old(calls) + (if TornDown(old(destroyed), teardownAt, p.suspensions) then TeardownCalls(hasUnregisterId, wrapperId)
                                     else if old(destroyed) && p.runs then []
                                     else ReportCalls(hasOnWrapperValidate, wrapperId, p.final))
    {
      var anyFieldPassedConstraintValidation :=
        |targetInputNames| == 0 || |targetInputNames| > |errorFromConstraintValidation|;
      if anyFieldPassedConstraintValidation {
        SettleWithCustomChain(doc, root, teardownAt, errorFromConstraintValidation, p, rs);
      } else {
        PublishAsWritten(errorFromConstraintValidation);
      }
    }

    /** A pass that awaits the custom chain: nothing is reported or published once the component is gone. */
    method SettleWithCustomChain(doc: Document, root: Subtree, teardownAt: Option<nat>, errorFromConstraintValidation: ValidationError,
                                 ghost p: Plan, ghost rs: seq<JsValue>)
      requires rs == Chain() && p.evaluated == Evaluated(rs) && p.runs
      requires doc.nodes == p.nodes && errorFromConstraintValidation == p.constraint
      requires p.chain == (|rs| > 0)
      requires p.custom == (if p.chain then ChainResult(rs) else map[])
      requires p.final == p.custom + p.constraint
      requires p.suspensions == (if |rs| == 0 then 1 else Evaluated(rs) + 2)
      requires Within(doc.nodes, root) && (|rs| > 0 ==> TargetsPresent(doc.nodes, root, targetInputNames))
      modifies this`hadCustomError, this`loading, this`destroyed, this`error, this`calls, doc`nodes
      ensures destroyed == (old(destroyed) || TornDown(old(destroyed), teardownAt, p.suspensions))
      ensures error == if destroyed then old(error) else p.final
      ensures var marked := p.chain && !old(destroyed) && !TornDown(old(destroyed), teardownAt, p.evaluated + 1);
              && doc.nodes == (if marked then ApplyCustomValidity(p.nodes, root, targetInputNames, p.custom) else p.nodes)
              && hadCustomError == (old(hadCustomError) || marked)
      ensures loading == if p.chain then old(destroyed) || TornDown(old(destroyed), teardownAt, p.evaluated) else old(loading)
      ensures calls == old(calls) + (if TornDown(old(destroyed), teardownAt, p.suspensions) then TeardownCalls(hasUnregisterId, wrapperId)
                                     else if destroyed then []
                                     else ReportCalls(hasOnWrapperValidate, wrapperId, p.final))
    {
      var error := AwaitCustomViolation(doc, root, teardownAt, errorFromConstraintValidation, p, rs);
      if !destroyed {
        Publish(error);
      }
    }

    /**
     * The branch of a pass that awaits `collectCustomViolation` and lays the
     * constraint errors over its result.
     */
    method AwaitCustomViolation(doc: Document, root: Subtree, teardownAt: Option<nat>, errorFromConstraintValidation: ValidationError,
                                ghost p: Plan, ghost rs: seq<JsValue>)
      returns (error: ValidationError)
      requires rs == Chain() && p.evaluated == Evaluated(rs) && p.runs
      requires doc.nodes == p.nodes && errorFromConstraintValidation == p.constraint
      requires p.chain == (|rs| > 0)
      requires p.custom == (if p.chain then ChainResult(rs) else map[])
      requires p.final == p.custom + p.constraint
      requires p.suspensions == (if |rs| == 0 then 1 else Evaluated(rs) + 2)
      requires Within(doc.nodes, root) && (|rs| > 0 ==> TargetsPresent(doc.nodes, root, targetInputNames))
      modifies this`hadCustomError, this`loading, this`destroyed, this`calls, doc`nodes
      ensures destroyed == (old(destroyed) || TornDown(old(destroyed), teardownAt, p.suspensions))
      ensures !destroyed ==> error == p.final
      ensures var marked := p.chain && !old(destroyed) && !TornDown(old(destroyed), teardownAt, p.evaluated + 1);
              && doc.nodes == (if marked then ApplyCustomValidity(p.nodes, root, targetInputNames, p.custom) else p.nodes)
              && hadCustomError == (old(hadCustomError) || marked)
      ensures loading == if p.chain then old(destroyed) || TornDown(old(destroyed), teardownAt, p.evaluated) else old(loading)
      ensures calls == old(calls) + (if TornDown(old(destroyed), teardownAt, p.suspensions) then TeardownCalls(hasUnregisterId, wrapperId) else [])
    {
      var customError, used := CollectCustomViolation(doc, root, teardownAt, rs);
      Suspend(used, teardownAt);
      error := customError + errorFromConstraintValidation;
    }

    /** The end of a pass: the report to the container, then the error, unless the component is gone. */
    method Publish(error: ValidationError)
      modifies this`calls, this`error
      ensures !destroyed ==> calls == old(calls) + ReportCalls(hasOnWrapperValidate, wrapperId, error) && this.error == error
      ensures destroyed ==> calls == old(calls) && this.error == old(this.error)
    {
      ReportValidity(error);
      if !destroyed {
        this.error := error;
      }
    }

    /** The end of a pass as the source writes it: the report is unconditional, only the error is guarded. */
    method PublishAsWritten(error: ValidationError)
      modifies this`calls, this`error
      ensures calls == old(calls) + ReportCalls(hasOnWrapperValidate, wrapperId, error)
      ensures this.error == if destroyed then old(this.error) else error
    {
      ReportValidityAsWritten(error);
      if !destroyed {
        this.error := error;
      }
    }

    /**
     * `collectCustomViolation`: `{}` without validators; otherwise the
     * chain's result, after marking the inputs with it, unless the component
     * was torn down meanwhile. `used` counts the awaits gone through.
     */
    method CollectCustomViolation(doc: Document, root: Subtree, teardownAt: Option<nat>, ghost rs: seq<JsValue>)
      returns (result: ValidationError, used: nat)
      requires rs == Chain()
      requires Within(doc.nodes, root) && (|rs| > 0 ==> TargetsPresent(doc.nodes, root, targetInputNames))
      modifies this`hadCustomError, this`loading, this`destroyed, this`calls, doc`nodes
      ensures destroyed == (old(destroyed) || (|rs| > 0 && TornDown(old(destroyed), teardownAt, Evaluated(rs) + 1)))
      ensures calls == old(calls) + (if |rs| > 0 && TornDown(old(destroyed), teardownAt, Evaluated(rs) + 1)
                                     then TeardownCalls(hasUnregisterId, wrapperId) else [])
      ensures |rs| == 0 ==>
                (result == map[] && used == 0 && doc.nodes == old(doc.nodes)
                 && hadCustomError == old(hadCustomError) && loading == old(loading))
      ensures |rs| > 0 && !destroyed ==>
                (result == ChainResult(rs) && used == Evaluated(rs) + 1 && hadCustomError
                 && doc.nodes == ApplyCustomValidity(old(doc.nodes), root, targetInputNames, result))
      ensures |rs| > 0 && destroyed ==> doc.nodes == old(doc.nodes) && hadCustomError == old(hadCustomError)
      ensures |rs| > 0 ==> loading == (old(destroyed) || TornDown(old(destroyed), teardownAt, Evaluated(rs)))
    {
      if |Validators(validator)| == 0 {
        return map[], 0;
      }
      var error, n := CustomValidate(teardownAt, rs);
      Suspend(n, teardownAt);
      if destroyed {
        return map[], n + 1;
      }
      SetCustomValidity(doc, root, error);
      hadCustomError := true;
      return error, n + 1;
    }

    /**
     * The debounce timer firing: runs one pass with the last trigger's
     * argument (`p` is that pass's plan), or does nothing when no trigger
     * is pending.
     */
    method FlushDebounce(doc: Document, teardownAt: Option<nat>) returns (ghost p: Plan)
      requires Valid()
      requires pending.Some? ==> Within(doc.nodes, pending.value)
      requires pending.Some? && (hadCustomError || |Validators(validator)| > 0) ==> TargetsPresent(doc.nodes, pending.value, targetInputNames)
      modifies this`pending, this`hadCustomError, this`loading, this`destroyed, this`error, this`calls, doc`nodes
      ensures pending == None
      ensures old(pending).None? ==>
                error == old(error) && doc.nodes == old(doc.nodes) && destroyed == old(destroyed) && calls == old(calls)
                && hadCustomError == old(hadCustomError) && loading == old(loading)
      ensures old(pending).Some? ==>
                && p == PlanPass(old(hadCustomError), old(doc.nodes), old(pending).value, targetInputNames, customErrorFactory, old(Chain()))
                && destroyed == (old(destroyed) || TornDown(old(destroyed), teardownAt, p.suspensions))
                && error == (if destroyed then old(error) else p.final)
                && calls == old(calls) + (if TornDown(old(destroyed), teardownAt, p.suspensions) then TeardownCalls(hasUnregisterId, wrapperId)
                                          else if destroyed then []
                                          else ReportCalls(hasOnWrapperValidate, wrapperId, p.final))
      ensures old(pending).Some? ==>
                var marked := p.chain && !old(destroyed) && !TornDown(old(destroyed), teardownAt, p.evaluated + 1);
                && doc.nodes == (if marked then ApplyCustomValidity(p.nodes, old(pending).value, targetInputNames, p.custom) else p.nodes)
                && hadCustomError == (old(hadCustomError) || marked)
    {
      if pending.Some? {
        var root := pending.value;
        pending := None;
        p := ContextualValidate(doc, root, teardownAt);
      } else {
        p := Plan(doc.nodes, map[], false, false, map[], map[], 0, 0);
      }
    }

    /**
     * The discrepancy, as written: the component is torn down, then a pass
     * in which every target fails its constraints runs. The container
     * receives the unregistration and then a report, which puts the id back
     * into its map.
     */
    method TeardownThenSkippedPassAsWritten(doc: Document, root: Subtree, ghost m: WrapperMap) returns (ghost p: Plan)
      requires Valid() && Within(doc.nodes, root)
      requires hadCustomError || |Validators(validator)| > 0 ==> TargetsPresent(doc.nodes, root, targetInputNames)
      requires !destroyed && hasUnregisterId && hasOnWrapperValidate && wrapperId.Some?
      requires !PlanPass(hadCustomError, doc.nodes, root, targetInputNames, customErrorFactory, Chain()).runs
      modifies this`hadCustomError, this`loading, this`destroyed, this`error, this`calls, doc`nodes
      ensures destroyed && error == old(error)
      ensures calls == old(calls) + [Unregister(wrapperId.value), Report(wrapperId.value, IsEmptyValidationError(p.constraint))]
      ensures wrapperId.value in Replay(m, calls[|old(calls)|..])
    {
      WillDestroy();
      p := ContextualValidateAsWritten(doc, root, None);
      LateReportLeavesPhantomEntry(m, wrapperId.value, p.final, []);
      assert calls[|old(calls)|..] == TeardownCalls(true, wrapperId) + ReportCalls(true, wrapperId, p.final) + [];
    }

    /** The same sequence with the corrected pass: the id stays out of the container's map. */
    method TeardownThenSkippedPass(doc: Document, root: Subtree, ghost m: WrapperMap) returns (ghost p: Plan)
      requires Valid() && Within(doc.nodes, root)
      requires hadCustomError || |Validators(validator)| > 0 ==> TargetsPresent(doc.nodes, root, targetInputNames)
      requires !destroyed && hasUnregisterId && hasOnWrapperValidate && wrapperId.Some?
      requires !PlanPass(hadCustomError, doc.nodes, root, targetInputNames, customErrorFactory, Chain()).runs
      modifies this`hadCustomError, this`loading, this`destroyed, this`error, this`calls, doc`nodes
      ensures destroyed && error == old(error)
      ensures calls == old(calls) + [Unregister(wrapperId.value)]
      ensures wrapperId.value !in Replay(m, calls[|old(calls)|..])
    {
      WillDestroy();
      p := ContextualValidate(doc, root, None);
      LateReportLeavesPhantomEntry(m, wrapperId.value, p.final, []);
      assert calls[|old(calls)|..] == TeardownCalls(true, wrapperId) + [];
    }
  }
}
