# ember-form-validity in Dafny

A model of the core of `ember-form-validity`, an Ember add-on for form
validation. It has two components:

- A `ValidatorWrapper` wraps one field. It runs the browser's constraint
  validation over the field's inputs. It then runs a chain of custom
  validators, unless every target input already failed. It marks the
  inputs with the messages, reports the verdict to the container and keeps
  the error that the template shows.
- A `ValidatorContainer` wraps the form. It keeps the validity each
  registered wrapper last reported and derives the form's `isValid` from
  it. On submit it calls the callback only when the form is valid.
  Otherwise it focuses the first invalid element.

The model covers both the TypeScript components and the older JavaScript
ones, which are the `Legacy*` modules. It also covers the error-shape
helpers of `validate-error`, the `intersection` helper, and the error-code
factory of the demo application.

Modules:

- `Wrappers`: `Option` and `Result`.
- `JsValues`: the JavaScript values the core inspects. It defines
  truthiness, `typeof`, Ember's `isEmpty` and string conversion.
- `ValidateError`, `LegacyValidateError`: the `ValidationError` shape and
  its predicates.
- `ArrayHelpers`: `intersection`.
- `CustomErrorMessage`: `getErrorFromElement`.
- `Dom`: the page as an arena of elements addressed by index. It includes
  the CSS selectors the core uses, `querySelector` and `querySelectorAll`.
- `Registry`: the wrapper map that both containers keep. It also defines
  the calls a wrapper makes into its container (`unregisterId`,
  `onWrapperValidate`) and their effect when replayed in order.
- `ValidatorContainer`, `LegacyValidatorContainer`: the container classes.
- `ValidatorWrapper`, `LegacyValidatorWrapper`: the wrapper classes.

A pass of the asynchronous TypeScript wrapper is linearised:

- Every `await` is a numbered suspension.
- The parameter `teardownAt` names the suspension, if any, during which
  the component is torn down.
- A ghost `Plan` (`PlanPass`) says what a pass that runs to completion
  computes. `ContextualValidate` is proved against that plan, for every
  teardown point.
- The calls the wrapper makes into the container are recorded in its
  `calls` field as a log. The container replays that log with `ReceiveAll`.
- The pass comes in two versions. `ContextualValidateAsWritten` follows
  the source's guards. `ContextualValidate` adds the guard that the source
  evidently intends (see Findings), and the rest of the model uses it.

## Model

| member | source | states |
|---|---|---|
| ArrayHelpers.Intersection | addon/utils/array-helpers.ts:1-3 | the result is no longer than `arr1`; it keeps exactly the elements of `arr1` that are in `arr2` |
| ArrayHelpers.IntersectionAppend | addon/utils/array-helpers.ts:1-3 | the filter distributes over concatenation, so `arr1`'s order is kept |
| ArrayHelpers.IntersectionCount | addon/utils/array-helpers.ts:1-3 | a kept element keeps its multiplicity in `arr1`; any other element occurs 0 times |
| ArrayHelpers.IntersectionDistinct | addon/utils/array-helpers.ts:1-3 | a duplicate-free `arr1` gives a duplicate-free result |
| ArrayHelpers.IntersectionExamples | tests/unit/utils/array-helpers-test.js:6-7 | `intersection([1,2,3], {2,1}) == [1,2]` and `intersection([], {2,1}) == []`, with the second argument as a set: the test passes the array `[2,1]`, which the model cannot express (see Left out) |
| JsValues.EmberIsEmpty | addon/utils/validate-error.ts:8 | definition of Ember's `isEmpty`: null, undefined, an empty string or array, or an object whose `size` or `length` is 0 (no contract) |
| ValidateError.AsValidationError | addon/utils/validate-error.ts:5-14 | a conforming value denotes the error with the same keys |
| ValidateError.IsValidValidationError | addon/utils/validate-error.ts:5-14 | definition: an object, not an array, not empty for Ember, every value a string or a SafeString (no contract; see `ObjectConformsIffStringValued`) |
| ValidateError.RejectsNonObjects | addon/utils/validate-error.ts:5-14 | arrays, non-objects and null never conform |
| ValidateError.ObjectConformsIffStringValued | addon/utils/validate-error.ts:5-14 | a plain object that Ember does not count as empty conforms iff every value is a string or a SafeString |
| ValidateError.ToJsValueRoundTrip | addon/utils/validate-error.ts:5-14 | every error, as a JavaScript object, conforms and reads back as itself |
| ValidateError.AsValidationErrorRoundTrip | addon/utils/validate-error.ts:5-14 | every conforming value is the object of the error it denotes |
| ValidateError.ShapeExamples | tests/unit/utils/validate-error-test.js:10-20 | the shape-check vectors: `''`, `[]`, null, 123 and objects holding an array, a function or an object are rejected; string and SafeString values are accepted |
| ValidateError.EmptyIffNoTruthyValue | addon/utils/validate-error.ts:15-21 | an error is empty iff no value is truthy; `{}` is empty |
| ValidateError.IsEmptyValidationError | addon/utils/validate-error.ts:15-21 | definition: no value is truthy (no contract; see `EmptyIffNoTruthyValue`, `OverlayEmpty`) |
| ValidateError.SafeMessageIsNotEmpty | addon/utils/validate-error.ts:15-21 | a SafeString value makes an error non-empty, even when it wraps "" |
| ValidateError.OverlayEmpty | addon/utils/validate-error.ts:15-21 | `{...base, ...top}` is empty iff `top` is empty and every entry of `base` that `top` does not hide is falsy |
| ValidateError.EmptinessExamples | tests/unit/utils/validate-error-test.ts:9-18 | the emptiness and key-match vectors of the unit test |
| ValidateError.KeyMatchIsInclusion | addon/utils/validate-error.ts:22-31 | a key match holds iff the key set is included in the names; `{}` matches every list |
| ValidateError.IsValidationKeyMatch | addon/utils/validate-error.ts:22-31 | definition: every key is one of the names (no contract; see `KeyMatchIsInclusion`, `OverlayKeyMatch`) |
| ValidateError.OverlayKeyMatch | addon/utils/validate-error.ts:22-31 | an overlay matches iff both of its parts match |
| LegacyValidateError.LegacyIsEmptyValidationError | addon/utils/validate-error.js:14-24 | it throws iff the shape check fails; otherwise the result is true iff no value is truthy |
| LegacyValidateError.LegacyIsValidationKeyMatch | addon/utils/validate-error.js:25-33 | false on a malformed value; otherwise true iff the key set is included in the names |
| LegacyValidateError.AgreesWithCurrent | addon/utils/validate-error.js:14-33 | on conforming values both legacy predicates equal the TypeScript ones |
| LegacyValidateError.LegacyEmptinessExamples | tests/unit/utils/validate-error-test.js:22-23 | `{}` and an error holding only empty strings are empty |
| LegacyValidateError.LegacyNonEmptyExamples | tests/unit/utils/validate-error-test.js:24-25 | a truthy string or a SafeString value makes an error non-empty |
| LegacyValidateError.LegacyKeyMatchExamples | tests/unit/utils/validate-error-test.js:28-30 | an undefined argument does not match; an extra key does not match; a subset matches |
| CustomErrorMessage.FirstRaised | tests/dummy/app/utils/custom-error-message.ts:1-28 | the code of the first rule whose flag is raised, with no earlier rule raised; None iff no rule is raised |
| CustomErrorMessage.GetErrorFromElement | tests/dummy/app/utils/custom-error-message.ts:1-28 | definition: the if/else chain per name (no contract; see `FactoryFollowsPriorityTable`) |
| CustomErrorMessage.FactoryFollowsPriorityTable | tests/dummy/app/utils/custom-error-message.ts:1-28 | the factory returns the first raised code in the priority table of the element's name (`date`, `url`), else the element's `validationMessage` |
| CustomErrorMessage.DependsOnlyOnNameFlagsMessage | tests/dummy/app/utils/custom-error-message.ts:1-28 | the result depends only on the name, the flags and the validation message |
| CustomErrorMessage.DateAndUrlExamples | tests/integration/components/validator-wrapper-test.ts:764-811 | the codes the integration test expects: VALUE_TOO_MUCH for an overflowing date, PATTERN_MISMATCH for a filled url (no missing value, no type mismatch) with a pattern mismatch |
| Registry.EmptyIsValid | addon/components/validator-container.ts:30-36 | a container with no wrappers is valid |
| Registry.UpsertValidity | addon/components/validator-container.ts:54-58 | after an upsert, the aggregate is the new report AND the aggregate of the other entries |
| Registry.RemovalKeepsValidity | addon/components/validator-container.ts:43-47 | removing an entry never makes a valid map invalid |
| Registry.RemovingOnlyInvalid | addon/components/validator-container.ts:43-47 | removing the only invalid entry makes the map valid |
| Registry.Apply | addon/components/validator-container.ts:43-58 | an unregister drops its id; a report stores its verdict; every other id is unchanged |
| Registry.ReplayAppend | addon/components/validator-container.ts:43-58 | handling two batches of calls in sequence is handling their concatenation |
| Registry.AbsentWithoutReport | addon/components/validator-container.ts:43-58 | an absent id stays absent while no call reports for it |
| Registry.PresentWithoutUnregister | addon/components/validator-container.ts:43-58 | a present id stays present while no call unregisters it |
| Registry.UnregisterThenReport | addon/components/validator-container.ts:43-58 | after `unregisterId(id)`, the id stays out unless a later call reports for it; one report brings it back for good unless it is unregistered again |
| ValidatorContainer.ValidatorContainer.constructor | addon/components/validator-container.ts:19-28 | `validating` defaults to true; the map is empty; the container is valid |
| ValidatorContainer.ValidatorContainer.ValidateWrappers | addon/components/validator-container.ts:30-36 | true iff not validating or every wrapper reported valid |
| ValidatorContainer.ValidatorContainer.RegisterId | addon/components/validator-container.ts:38-41 | returns the counter and increments it; every id is fresh and greater than every earlier id |
| ValidatorContainer.ValidatorContainer.UnregisterId | addon/components/validator-container.ts:43-47 | removes only `id` (no-op when absent); `isValid` stays consistent and is true once the only invalid wrapper is gone |
| ValidatorContainer.ValidatorContainer.RegisterElement | addon/components/validator-container.ts:49-52 | stores the form element |
| ValidatorContainer.ValidatorContainer.OnWrapperValidate | addon/components/validator-container.ts:54-58 | upserts the report and keeps every other entry; `isValid` is the new report AND the rest, or true when not validating |
| ValidatorContainer.ValidatorContainer.Receive | addon/components/validator-container.ts:43-58 | handling one wrapper call applies it to the map and keeps `isValid` consistent |
| ValidatorContainer.ValidatorContainer.ReceiveAll | addon/components/validator-container.ts:43-58 | handling a wrapper's calls in order gives the replay of the whole log |
| ValidatorContainer.ValidatorContainer.CheckForm | addon/components/validator-container.ts:60-75 | turns validating on; saves iff every wrapper is valid; otherwise focuses the first invalid child when there is one and leaves focus alone otherwise |
| LegacyValidatorContainer.ValidatorContainer.constructor | addon/components/validator-container.js:26-29 | `validating` is copied from the argument; the map is empty |
| LegacyValidatorContainer.ValidatorContainer.IsValid | addon/components/validator-container.js:19-24 | definition of the `isValid` getter: every wrapper reported valid, whatever `validating` says (no contract; see `OnWrapperValidate`) |
| LegacyValidatorContainer.ValidatorContainer.RegisterElement | addon/components/validator-container.js:31-34 | stores the form element |
| LegacyValidatorContainer.ValidatorContainer.OnWrapperValidate | addon/components/validator-container.js:36-39 | upserts the report; the `isValid` getter (lines 19-24) is the new report AND the rest |
| LegacyValidatorContainer.ValidatorContainer.CheckForm | addon/components/validator-container.js:41-52 | saves iff valid; otherwise focuses the first invalid element, and throws when no element is registered or none is invalid |
| ValidatorWrapper.ValidatorsNormalised | addon/components/validator-wrapper.ts:103-109 | `validators` is empty only without validators; one function becomes a one-element list; normalising is idempotent |
| ValidatorWrapper.Validators | addon/components/validator-wrapper.ts:103-109 | definition of `validators`: the array, a one-element list for a function, empty without validators (no contract; see `ValidatorsNormalised`) |
| ValidatorWrapper.ResultAt | addon/components/validator-wrapper.ts:124-125 | result `i` is what validator `i` returns for the model |
| ValidatorWrapper.Winner | addon/components/validator-wrapper.ts:124-143 | a winner is a conforming, non-empty result |
| ValidatorWrapper.WinnerIsFirstDecisive | addon/components/validator-wrapper.ts:124-143 | no result before the winner is decisive; there is no winner iff no result is decisive |
| ValidatorWrapper.ChainReaches | addon/components/validator-wrapper.ts:124-143 | past `i` non-decisive results the chain calls validator `i`, and stops there when it is decisive |
| ValidatorWrapper.ChainExhausted | addon/components/validator-wrapper.ts:144-146 | without a decisive result, every validator is called and the result is `{}` |
| ValidatorWrapper.ChainResult | addon/components/validator-wrapper.ts:122-147 | definition of `customValidate`'s value: the winner's result, else `{}` (no contract; see `ChainResultMeaning`) |
| ValidatorWrapper.ChainResultMeaning | addon/components/validator-wrapper.ts:122-147 | the result is `{}` or the first decisive result; it is empty iff no result is decisive |
| ValidatorWrapper.ConstraintErrorsKeys | addon/components/validator-wrapper.ts:196-219 | a name has a constraint error iff an input of that name fails its native constraints without a custom error |
| ValidatorWrapper.ConstraintErrors | addon/components/validator-wrapper.ts:196-219 | definition of `_collectConstraintViolation`'s value, a fold over the inputs in document order (no contract; see `ConstraintErrorsKeys`, `ConstraintErrorsLastWins`) |
| ValidatorWrapper.ConstraintErrorsLastWins | addon/components/validator-wrapper.ts:201-215 | the message for a name is that of the last violating input of that name |
| ValidatorWrapper.ConstraintKeysAreTargets | addon/components/validator-wrapper.ts:203-205 | only target names get constraint errors |
| ValidatorWrapper.SkipIffEveryTargetFailed | addon/components/validator-wrapper.ts:278-281 | the custom chain is skipped exactly when there are targets and every one already has a constraint error |
| ValidatorWrapper.PlanRunsIffSomeTargetPassed | addon/components/validator-wrapper.ts:275-281 | with distinct targets, a pass skips the chain iff there are targets and every one has a constraint error |
| ValidatorWrapper.MarkName | addon/components/validator-wrapper.ts:170-177 | marking one name changes only the written attributes |
| ValidatorWrapper.MarkNames | addon/components/validator-wrapper.ts:168-178 | marking the targets changes only the written attributes |
| ValidatorWrapper.ApplyCustomValidity | addon/components/validator-wrapper.ts:167-194 | `setCustomValidity` changes only custom messages and `aria-invalid` |
| ValidatorWrapper.MarkNameFrame | addon/components/validator-wrapper.ts:170-177 | marking a name writes no element of another name |
| ValidatorWrapper.MarkNamesMeaning | addon/components/validator-wrapper.ts:168-178 | afterwards each target's input carries exactly its own message, or "" when it has none |
| ValidatorWrapper.CollectedTargets | addon/components/validator-wrapper.ts:221-236 | the targets are the model keys, in model order and without repeats, that name an input or select; each of them selects an element |
| ValidatorWrapper.PlanPass | addon/components/validator-wrapper.ts:266-302 | clearing the previous marks keeps every element and attribute the core does not write; the chain runs iff there are no targets or more targets than constraint errors; the pass suspends iff the chain runs; a skipped chain contributes `{}` and the final error is the constraint errors; otherwise the final error is the custom result overlaid by the constraint errors |
| ValidatorWrapper.PassVerdict | addon/components/validator-wrapper.ts:283-296 | constraint errors win per key; the field is valid iff no constraint message is truthy and no surviving custom message is truthy |
| ValidatorWrapper.LateReportLeavesPhantomEntry | addon/components/validator-wrapper.ts:292-297 | a report after the teardown's `unregisterId` puts the id back in the container for good; without it the id stays out |
| ValidatorWrapper.ValidatorWrapper.constructor | addon/components/validator-wrapper.ts:111-115 | the fields start as declared at lines 72-89, from the arguments |
| ValidatorWrapper.ValidatorWrapper.Create | addon/components/validator-wrapper.ts:111-115 | construction fails iff the model is empty for Ember's `isEmpty` |
| ValidatorWrapper.ValidatorWrapper.ErrorMessage | addon/components/validator-wrapper.ts:94-96 | the error while validating, else `{}` |
| ValidatorWrapper.ValidatorWrapper.Chain | addon/components/validator-wrapper.ts:124-125 | one result per validator |
| ValidatorWrapper.ValidatorWrapper.WillDestroy | addon/components/validator-wrapper.ts:117-120 | marks the component destroyed and unregisters its id, when there is an id and the callback was passed |
| ValidatorWrapper.ValidatorWrapper.Suspend | addon/components/validator-wrapper.ts:125-126 | an await is the one point where teardown can happen |
| ValidatorWrapper.ValidatorWrapper.CustomValidate | addon/components/validator-wrapper.ts:122-147 | returns the first decisive result or `{}` after `Evaluated` awaits and clears `loading`; on teardown it returns `{}` and leaves `loading` set |
| ValidatorWrapper.ValidatorWrapper.CollectCustomViolation | addon/components/validator-wrapper.ts:149-160 | `{}` without validators; otherwise the chain's result, after the inputs are marked with it, unless the component was torn down |
| ValidatorWrapper.ValidatorWrapper.SetCustomValidity | addon/components/validator-wrapper.ts:167-194 | the document becomes `ApplyCustomValidity` of the old one |
| ValidatorWrapper.ValidatorWrapper.CollectConstraintViolation | addon/components/validator-wrapper.ts:196-219 | returns the constraint errors of the subtree's inputs and selects, in document order |
| ValidatorWrapper.ValidatorWrapper.CollectInputNames | addon/components/validator-wrapper.ts:221-243 | the targets become the intersection of the model keys with the input names; they have no repeats and each is present |
| ValidatorWrapper.ValidatorWrapper.OnReceiveProperties | addon/components/validator-wrapper.ts:245-249 | recollects the targets and schedules a pass |
| ValidatorWrapper.ValidatorWrapper.OnInsert | addon/components/validator-wrapper.ts:251-256 | keeps the registered id, collects the targets and schedules a pass |
| ValidatorWrapper.ValidatorWrapper.ContextualValidator | addon/components/validator-wrapper.ts:261-264 | the debounced trigger keeps only the last argument |
| ValidatorWrapper.ValidatorWrapper.FlushDebounce | addon/components/validator-wrapper.ts:261-264 | the timer empties the slot; without a pending argument nothing changes; with one, the pass on it follows its plan exactly as `ContextualValidate` states (error, marks, `hadCustomError`, calls made) |
| ValidatorWrapper.ValidatorWrapper.ContextualValidate | addon/components/validator-wrapper.ts:266-302 | the pass follows its plan for every teardown point: it skips the chain iff every target has a constraint error; error, marks, `hadCustomError`, `loading`; calls made: an unregister on teardown, no report once destroyed, else exactly one report (the corrected guard, see Findings) |
| ValidatorWrapper.ValidatorWrapper.ContextualValidateAsWritten | addon/components/validator-wrapper.ts:266-302 | the pass as written: as `ContextualValidate`, except that a pass that skips the chain reports even when the component was already destroyed |
| ValidatorWrapper.ValidatorWrapper.ClearPreviousMarks | addon/components/validator-wrapper.ts:267-273 | clears every mark iff the previous pass left custom errors |
| ValidatorWrapper.ValidatorWrapper.Settle | addon/components/validator-wrapper.ts:275-301 | the rest of the pass after the constraint errors, with the same guarantees as `ContextualValidate` (the corrected guard: no report once destroyed, in either branch) |
| ValidatorWrapper.ValidatorWrapper.SettleAsWritten | addon/components/validator-wrapper.ts:275-301 | as written: the branch that skips the chain reports after teardown as well; the awaiting branch does not |
| ValidatorWrapper.ValidatorWrapper.SettleWithCustomChain | addon/components/validator-wrapper.ts:282-301 | the branch that awaits the chain: after a teardown nothing is reported or published |
| ValidatorWrapper.ValidatorWrapper.AwaitCustomViolation | addon/components/validator-wrapper.ts:283-287 | the error is the custom result overlaid by the constraint errors |
| ValidatorWrapper.ValidatorWrapper.Publish | addon/components/validator-wrapper.ts:292-301 | the corrected end of a pass: a live component reports and then stores the error; a destroyed one does neither |
| ValidatorWrapper.ValidatorWrapper.PublishAsWritten | addon/components/validator-wrapper.ts:292-301 | as written: the report is made whether or not the component is alive; only the stored error is guarded |
| ValidatorWrapper.ValidatorWrapper.ReportValidity | addon/components/validator-wrapper.ts:292-297 | reports `isEmptyValidationError(error)` only with the callback, an id and a live component |
| ValidatorWrapper.ValidatorWrapper.ReportValidityAsWritten | addon/components/validator-wrapper.ts:292-297 | reports with the callback and an id, whether or not the component is alive |
| ValidatorWrapper.ValidatorWrapper.TeardownThenSkippedPassAsWritten | addon/components/validator-wrapper.ts:275-301 | as written, `willDestroy` followed by a pass that skips the chain sends `[unregisterId(id), onWrapperValidate(id, …)]`, after which the container holds the id again |
| ValidatorWrapper.ValidatorWrapper.TeardownThenSkippedPass | addon/components/validator-wrapper.ts:275-301 | with the corrected guard, the same sequence sends only `unregisterId(id)` and the id stays out of the container |
| LegacyValidatorWrapper.FirstTruthyMeaning | addon/components/validator-wrapper.js:81-91 | the result is null or truthy; it is truthy iff some validator returns a truthy value, and is then the first such result |
| LegacyValidatorWrapper.FirstTruthy | addon/components/validator-wrapper.js:81-91 | definition: the first truthy result, else null (no contract; see `FirstTruthyMeaning`) |
| LegacyValidatorWrapper.PlanCustomStep | addon/components/validator-wrapper.js:103-126 | a marked element is a descendant of the root |
| LegacyValidatorWrapper.CustomStepMeaning | addon/components/validator-wrapper.js:103-126 | throws iff the result is a truthy object whose name no descendant carries, with the "cannot find" message iff it has a truthy message; a mark carries that name and message; the memory is reset iff no validator returns a truthy value |
| LegacyValidatorWrapper.SetCustomValidityOn | addon/components/validator-wrapper.js:135-142 | without the constraint API it writes `data-error-message` and `aria-invalid`; otherwise a custom error is set iff the message is non-empty |
| LegacyValidatorWrapper.ClearingRestoresNativeValidity | addon/components/validator-wrapper.js:209-215 | clearing leaves no custom error, and validity then follows the native flags |
| LegacyValidatorWrapper.Classify | addon/components/validator-wrapper.js:161-192 | definition: the translated message of the first rung whose guard holds, else the native one (no contract; see `ClassifyPriority`) |
| LegacyValidatorWrapper.ClassifyPriority | addon/components/validator-wrapper.js:161-192 | the ladder rung by rung: a missing value on an input or select first; then a type mismatch on an email or url input; then a pattern mismatch; with no rung's guard holding (a textarea missing its value, a number input with a type mismatch), the native message; every result is translated or native |
| LegacyValidatorWrapper.Candidates | addon/components/validator-wrapper.js:151 | the root element comes first, followed by the named inputs and selects |
| LegacyValidatorWrapper.CandidatesMembers | addon/components/validator-wrapper.js:151 | after the root, an element is a candidate iff it is a descendant that is a named input or select |
| LegacyValidatorWrapper.NoViolationNoMessage | addon/components/validator-wrapper.js:161-196 | without a violating element the result is '' |
| LegacyValidatorWrapper.FirstViolationWins | addon/components/validator-wrapper.js:161-193 | the result is the message of the first violating element |
| LegacyValidatorWrapper.ValidatorWrapper.constructor | addon/components/validator-wrapper.js:56-64 | the error starts as '' and no element is remembered |
| LegacyValidatorWrapper.ValidatorWrapper.ErrorMessage | addon/components/validator-wrapper.js:70-72 | the error while validating, else '' |
| LegacyValidatorWrapper.ValidatorWrapper.CustomValidate | addon/components/validator-wrapper.js:81-91 | the first truthy validator result, or null without one or without an array |
| LegacyValidatorWrapper.ValidatorWrapper.SetCustomValidity | addon/components/validator-wrapper.js:135-142 | only the given element changes, as `SetCustomValidityOn` says |
| LegacyValidatorWrapper.ValidatorWrapper.GetCustomError | addon/components/validator-wrapper.js:103-126 | the return value, the document and the remembered element follow the planned step |
| LegacyValidatorWrapper.ValidatorWrapper.CollectConstraintViolation | addon/components/validator-wrapper.js:150-197 | the message of the first violating candidate, or '' |
| LegacyValidatorWrapper.ValidatorWrapper.ContextualValidator | addon/components/validator-wrapper.js:208-222 | clears the remembered element; a constraint violation wins; otherwise the custom step decides; a throw leaves `error` unchanged |

## Left out

- Warnings (`warn`), the i18n service and `jet.logError`. They do not change any state. The legacy translations are a parameter `translate` keyed by the message keys.
- Focus is the `activeElement` field of the document. Scrolling and focus events are left out.
- The `:invalid` pseudo-class is evaluated on elements only. A fieldset that is invalid through its descendants is not modelled.
- Lower-casing covers ASCII only. Numbers are integers, so floating point and NaN are left out.
- A validator result that is itself a SafeString is treated as malformed. The internals of a SafeString are not modelled.
- A function value's string conversion is a fixed stand-in.
- Selectors are matched on the name as a value. Quoting and escaping are not modelled, so the syntax error `[name=x]` raises for a name such as `a b` is left out.
- ValidatorWrapper.ValidatorWrapper.SetCustomValidity: requires every target name to select an element in the subtree. The source throws on a missing element, and the model does not represent that throw.
- ValidatorWrapper.ValidatorWrapper.ClearPreviousMarks: requires the targets present only when a previous pass left custom errors, which is when it calls `setCustomValidity`.
- ValidatorWrapper.ValidatorWrapper.CollectCustomViolation: requires the targets present only when there are validators, which is when it may call `setCustomValidity`. The same holds for `AwaitCustomViolation`, `SettleWithCustomChain`, `Settle` and `SettleAsWritten`.
- ValidatorWrapper.ValidatorWrapper.ContextualValidate: requires the targets present only when the pass may call `setCustomValidity`, that is with custom errors from the previous pass or with validators. The same holds for `ContextualValidateAsWritten` and `FlushDebounce`. A pass without custom errors to clear and without validators runs on any document.
- ValidatorWrapper.ValidatorWrapper.ContextualValidate: models the corrected guard, so a destroyed component never reports (see Findings). The pass as the source writes it is `ContextualValidateAsWritten`.
- ValidatorWrapper.ValidatorWrapper.Settle: models the corrected guard (see Findings). As written, it is `SettleAsWritten`.
- ValidatorWrapper.ValidatorWrapper.Publish: models the corrected guard (see Findings). As written, it is `PublishAsWritten`.
- ValidatorWrapper.ValidatorWrapper.FlushDebounce: runs the corrected pass `ContextualValidate` (see Findings).
- Two passes of one wrapper never overlap in the model. A pass runs from `FlushDebounce` to its end before the next trigger is handled. A second debounced pass that starts while the first awaits its validators is not modelled.
- ArrayHelpers.IntersectionExamples: the second argument is a set, as the TypeScript signature declares. The unit test at array-helpers-test.js:6-7 passes the array `[2, 1]`, which has no `has` method, so the source as written would throw there. The model cannot express that call.
- The `?? [rootElement]` fallback at validator-wrapper.ts:199 is unreachable, because `querySelectorAll` never returns null.
- `preventDefault` on the submit event is left out.
- Tracked reactivity and template rendering are left out. The model argument is fixed during a pass, and `OnReceiveProperties` does not take a new model.
- The debounce timer is a pending slot that `FlushDebounce` empties. Its 150 ms delay is not modelled.
- The id that `registerId` returns is a parameter of `OnInsert`. The wrapper's calls into the container form a log, which the container handles with `ReceiveAll`. Interleaving between several wrappers is not modelled.
- Validators are functions of the model. A promise that rejects is not modelled.
- The legacy validators run synchronously, since the JavaScript component does not await them.
- In the legacy "cannot find" message, the selector shown comes from `error.selector`, as the source writes it, not from `error.name`.

## Findings

| source | as written | input that shows it | evidently intended | confidence | as-written member | corrected member |
|---|---|---|---|---|---|---|
| addon/components/validator-wrapper.ts:292-297 | the check for a destroyed component guards only the branch that awaits the custom chain (line 287), so a pass that skips the chain calls `onWrapperValidate` even after `willDestroy` | a wrapper with an id whose debounced pass fires after it was destroyed (`willDestroy` already called `unregisterId`), where every target input fails its native constraints: the chain is skipped, and `onWrapperValidate(id, false)` puts the id back in the container, which then stays invalid (`ValidatorWrapper.LateReportLeavesPhantomEntry`; the whole sequence is `TeardownThenSkippedPassAsWritten`, and with the corrected pass `TeardownThenSkippedPass`) | a destroyed wrapper makes no call into the container, as the guard at line 299 already ensures for `error` | not executed | ValidatorWrapper.ValidatorWrapper.ContextualValidateAsWritten | ValidatorWrapper.ValidatorWrapper.ContextualValidate |
