/**
 * The part of the DOM the core reads and writes, as an arena: a Document
 * holds every element in a sequence and an element is referred to by its
 * index. A Subtree lists a root element and its descendants in document
 * order. Only the constraint-validation state and the attributes the core
 * touches are represented.
 */
module Dom {
  import opened Wrappers

  /** ASCII lower-casing (`toLowerCase` on the tag names and types the core compares). */
  function Lower(s: string): (r: string)
    ensures |r| == |s|
  {
    seq(|s|, i requires 0 <= i < |s| => if 'A' <= s[i] <= 'Z' then (s[i] as int + 32) as char else s[i])
  }

  /** The native constraint-violation flags of an element's ValidityState. */
  datatype Flags = Flags(
    valueMissing: bool,
    typeMismatch: bool,
    patternMismatch: bool,
    tooLong: bool,
    tooShort: bool,
    rangeUnderflow: bool,
    rangeOverflow: bool,
    stepMismatch: bool,
    badInput: bool)
  {
    predicate Any() {
      valueMissing || typeMismatch || patternMismatch || tooLong || tooShort
      || rangeUnderflow || rangeOverflow || stepMismatch || badInput
    }
  }

  /**
   * One element. `constraintApi` says whether it has `validity` and
   * `setCustomValidity` (inputs and selects do, a contenteditable div does
   * not); `customMessage` is the string last passed to `setCustomValidity`;
   * `errorData` is `data-error-message`.
   */
  datatype Control = Control(
    tagName: string,
    name: Option<string>,
    typeAttr: Option<string>,
    constraintApi: bool,
    contentEditable: bool,
    flags: Flags,
    nativeMessage: string,
    customMessage: string,
    ariaInvalid: Option<string>,
    errorData: Option<string>)
  {
    /** `validity.customError`. */
    predicate CustomError() { customMessage != "" }

    /** `validity.valid`. */
    predicate IsValid() { !CustomError() && !flags.Any() }

    /** `validationMessage`: the custom message first, else the native one when invalid. */
    function ValidationMessage(): string {
      if CustomError() then customMessage else if flags.Any() then nativeMessage else ""
    }

    /** The `name` property, "" when the attribute is absent. */
    function NameProperty(): string { name.GetOr("") }

    /** The element with the attributes the core writes cleared: what the core never changes. */
    function Skeleton(): Control {
      this.(customMessage := "", ariaInvalid := None, errorData := None)
    }
  }

  /** The CSS selectors the core queries with. */
  datatype Selector =
    | InputOrSelect            // input,select
    | NamedInputOrSelect       // input[name],select[name]
    | NameIs(n: string)        // [name=n] and [name="n"]
    | ContentEditable          // [contenteditable="true"]
    | InvalidOrAriaInvalid     // :invalid,[aria-invalid="true"]

  predicate Matches(c: Control, sel: Selector) {
    match sel
    case InputOrSelect => Lower(c.tagName) == "input" || Lower(c.tagName) == "select"
    case NamedInputOrSelect => (Lower(c.tagName) == "input" || Lower(c.tagName) == "select") && c.name.Some?
    case NameIs(n) => c.name == Some(n)
    case ContentEditable => c.contentEditable
    case InvalidOrAriaInvalid => (c.constraintApi && !c.IsValid()) || c.ariaInvalid == Some("true")
  }

  /** Whether matching `sel` depends only on what the core never writes. */
  predicate Structural(sel: Selector) {
    !sel.InvalidOrAriaInvalid?
  }

  /** The page: every element, and the focused one. */
  class Document {
    var nodes: seq<Control>
    var activeElement: Option<nat>

    constructor (nodes: seq<Control>)
      ensures this.nodes == nodes && activeElement == None
    {
      this.nodes := nodes;
      activeElement := None;
    }
  }

  /** An element and its descendants, in document order. */
  datatype Subtree = Subtree(root: nat, descendants: seq<nat>)

  predicate AllIn(nodes: seq<Control>, ids: seq<nat>) {
    forall j :: 0 <= j < |ids| ==> ids[j] < |nodes|
  }

  predicate Within(nodes: seq<Control>, t: Subtree) {
    t.root < |nodes| && AllIn(nodes, t.descendants)
  }

  /** The position in `ids` of the first element matching `sel`. */
  function FirstPosition(nodes: seq<Control>, ids: seq<nat>, sel: Selector): (r: Option<nat>)
    requires AllIn(nodes, ids)
    ensures r.Some? ==> r.value < |ids| && Matches(nodes[ids[r.value]], sel)
  {
    if ids == [] then None
    else if Matches(nodes[ids[0]], sel) then Some(0)
    else match FirstPosition(nodes, ids[1..], sel)
      case None => None
      case Some(p) => Some(p + 1)
  }

  /** No element before the first match matches; there is no match exactly when no element matches. */
  lemma {:induction false} FirstPositionIsFirst(nodes: seq<Control>, ids: seq<nat>, sel: Selector)
    requires AllIn(nodes, ids)
    ensures FirstPosition(nodes, ids, sel).Some? ==>
              forall k :: 0 <= k < FirstPosition(nodes, ids, sel).value ==> !Matches(nodes[ids[k]], sel)
    ensures FirstPosition(nodes, ids, sel).None? <==> forall k :: 0 <= k < |ids| ==> !Matches(nodes[ids[k]], sel)
  {
    if ids != [] && !Matches(nodes[ids[0]], sel) {
      FirstPositionIsFirst(nodes, ids[1..], sel);
      forall k | 0 < k < |ids| ensures ids[k] == ids[1..][k - 1] {
      }
    }
  }

  /** `querySelector(sel)` over `ids`: the first matching element, or null. */
  function QuerySelector(nodes: seq<Control>, ids: seq<nat>, sel: Selector): (r: Option<nat>)
    requires AllIn(nodes, ids)
    ensures r.Some? ==> r.value < |nodes| && r.value in ids && Matches(nodes[r.value], sel)
  {
    match FirstPosition(nodes, ids, sel)
    case None => None
    case Some(p) => Some(ids[p])
  }

  /** `querySelector` finds nothing exactly when no element of `ids` matches. */
  lemma QuerySelectorNone(nodes: seq<Control>, ids: seq<nat>, sel: Selector)
    requires AllIn(nodes, ids)
    ensures QuerySelector(nodes, ids, sel).None? <==> forall k :: 0 <= k < |ids| ==> !Matches(nodes[ids[k]], sel)
  {
    FirstPositionIsFirst(nodes, ids, sel);
  }

  /** `querySelectorAll(sel)` over `ids`, in document order. */
  function QuerySelectorAll(nodes: seq<Control>, ids: seq<nat>, sel: Selector): (r: seq<nat>)
    requires AllIn(nodes, ids)
    ensures AllIn(nodes, r) && |r| <= |ids|
    ensures forall j :: 0 <= j < |r| ==> r[j] in ids && Matches(nodes[r[j]], sel)
  {
    if ids == [] then []
    else (if Matches(nodes[ids[0]], sel) then [ids[0]] else []) + QuerySelectorAll(nodes, ids[1..], sel)
  }

  /** `querySelectorAll` finds every matching element of `ids` and nothing else. */
  lemma {:induction false} QuerySelectorAllMembers(nodes: seq<Control>, ids: seq<nat>, sel: Selector, x: nat)
    requires AllIn(nodes, ids)
    ensures x in QuerySelectorAll(nodes, ids, sel) <==> x in ids && x < |nodes| && Matches(nodes[x], sel)
  {
    if ids != [] {
      QuerySelectorAllMembers(nodes, ids[1..], sel, x);
      assert ids == [ids[0]] + ids[1..];
    }
  }

  /** Every element with the attributes the core writes cleared. */
  function Skeletons(a: seq<Control>): (r: seq<Control>)
    ensures |r| == |a|
  {
    seq(|a|, i requires 0 <= i < |a| => a[i].Skeleton())
  }

  /** Two documents that differ at most in what the core writes. */
  predicate SameSkeleton(a: seq<Control>, b: seq<Control>) {
    Skeletons(a) == Skeletons(b)
  }

  /** Same skeleton, element by element: everything but the written attributes agrees. */
  lemma SameSkeletonAt(a: seq<Control>, b: seq<Control>, i: nat)
    requires SameSkeleton(a, b) && i < |a|
    ensures i < |b| && a[i].Skeleton() == b[i].Skeleton()
    ensures a[i].name == b[i].name && a[i].tagName == b[i].tagName && a[i].constraintApi == b[i].constraintApi
    ensures a[i].contentEditable == b[i].contentEditable && a[i].flags == b[i].flags
  {
    assert Skeletons(a)[i] == Skeletons(b)[i];
    assert a[i].name == a[i].Skeleton().name && b[i].name == b[i].Skeleton().name;
  }

  lemma SameSkeletonMatches(a: seq<Control>, b: seq<Control>, i: nat, sel: Selector)
    requires SameSkeleton(a, b) && Structural(sel) && i < |a|
    ensures Matches(a[i], sel) <==> Matches(b[i], sel)
  {
    SameSkeletonAt(a, b, i);
  }

  /** Structural queries give the same answer on documents with the same skeleton. */
  lemma {:induction false} SameSkeletonQuery(a: seq<Control>, b: seq<Control>, ids: seq<nat>, sel: Selector)
    requires SameSkeleton(a, b) && Structural(sel) && AllIn(a, ids)
    ensures AllIn(b, ids)
    ensures FirstPosition(a, ids, sel) == FirstPosition(b, ids, sel)
    ensures QuerySelector(a, ids, sel) == QuerySelector(b, ids, sel)
    ensures QuerySelectorAll(a, ids, sel) == QuerySelectorAll(b, ids, sel)
  {
    if ids != [] {
      SameSkeletonMatches(a, b, ids[0], sel);
      SameSkeletonQuery(a, b, ids[1..], sel);
    }
  }
}
