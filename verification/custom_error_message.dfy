/**
 * `getErrorFromElement` of tests/dummy/app/utils/custom-error-message.ts, the
 * error-message factory the demo application passes as `customErrorFactory`:
 * a priority classification of an element's validity flags into codes.
 */
module CustomErrorMessage {
  import opened Wrappers
  import opened Dom

  /** `getErrorFromElement`, as the if/else chain of the source. */
  function GetErrorFromElement(element: Control): string {
    if element.NameProperty() == "date" then
      if element.flags.valueMissing then "VALUE_MISSING"
      else if element.flags.typeMismatch then "TYPE_MISMATCH"
      else if element.flags.patternMismatch then "PATTERN_MISMATCH"
      else if element.flags.rangeOverflow then "VALUE_TOO_MUCH"
      else if element.flags.rangeUnderflow then "VALUE_TOO_LOW"
      else if element.flags.stepMismatch then "VALUE_MISMATCH_STEP"
      else element.ValidationMessage()
    else if element.NameProperty() == "url" then
      if element.flags.typeMismatch then "TYPE_MISMATCH"
      else if element.flags.patternMismatch then "PATTERN_MISMATCH"
      else if element.flags.tooLong then "VALUE_TOO_LONG"
      else if element.flags.tooShort then "VALUE_TOO_SHORT"
      else element.ValidationMessage()
    else element.ValidationMessage()
  }

  // ---------------------------------------------------------------------
  // An independent statement of the same classification: a priority table
  // per field name, read top to bottom.

  datatype Flag =
    | ValueMissing | TypeMismatch | PatternMismatch | TooLong | TooShort
    | RangeUnderflow | RangeOverflow | StepMismatch

  predicate Raised(flags: Flags, f: Flag) {
    match f
    case ValueMissing => flags.valueMissing
    case TypeMismatch => flags.typeMismatch
    case PatternMismatch => flags.patternMismatch
    case TooLong => flags.tooLong
    case TooShort => flags.tooShort
    case RangeUnderflow => flags.rangeUnderflow
    case RangeOverflow => flags.rangeOverflow
    case StepMismatch => flags.stepMismatch
  }

  datatype Rule = Rule(flag: Flag, code: string)

  const DateRules: seq<Rule> := [
    Rule(ValueMissing, "VALUE_MISSING"),
    Rule(TypeMismatch, "TYPE_MISMATCH"),
    Rule(PatternMismatch, "PATTERN_MISMATCH"),
    Rule(RangeOverflow, "VALUE_TOO_MUCH"),
    Rule(RangeUnderflow, "VALUE_TOO_LOW"),
    Rule(StepMismatch, "VALUE_MISMATCH_STEP")
  ]

  const UrlRules: seq<Rule> := [
    Rule(TypeMismatch, "TYPE_MISMATCH"),
    Rule(PatternMismatch, "PATTERN_MISMATCH"),
    Rule(TooLong, "VALUE_TOO_LONG"),
    Rule(TooShort, "VALUE_TOO_SHORT")
  ]

  function RulesFor(name: string): seq<Rule> {
    if name == "date" then DateRules else if name == "url" then UrlRules else []
  }

  /** The code of the first rule whose flag is raised. */
  function FirstRaised(rules: seq<Rule>, flags: Flags): (r: Option<string>)
    ensures r.Some? ==> (exists i :: 0 <= i < |rules| && Raised(flags, rules[i].flag) && r.value == rules[i].code
                           && forall k :: 0 <= k < i ==> !Raised(flags, rules[k].flag))
    ensures r.None? <==> forall i :: 0 <= i < |rules| ==> !Raised(flags, rules[i].flag)
  {
    if rules == [] then None
    else if Raised(flags, rules[0].flag) then Some(rules[0].code)
    else
      var r := FirstRaised(rules[1..], flags);
      assert r.Some? ==> (exists i :: 1 <= i < |rules| && Raised(flags, rules[i].flag) && r.value == rules[i].code
                            && forall k :: 0 <= k < i ==> !Raised(flags, rules[k].flag)) by {
          if r.Some? {
            var i :| 0 <= i < |rules[1..]| && Raised(flags, rules[1..][i].flag) && r.value == rules[1..][i].code
              && forall k :: 0 <= k < i ==> !Raised(flags, rules[1..][k].flag);
            assert rules[i + 1] == rules[1..][i];
            assert forall k :: 1 <= k < i + 1 ==> rules[k] == rules[1..][k - 1];
          }
        }
      r
  }

  /**
   * The factory returns the code of the first raised flag in the priority
   * list for the element's name; with no such flag (or another name) it
   * returns the element's own `validationMessage`.
   */
  lemma {:induction false} FactoryFollowsPriorityTable(element: Control)
    ensures GetErrorFromElement(element) ==
      match FirstRaised(RulesFor(element.NameProperty()), element.flags)
      case Some(code) => code
      case None => element.ValidationMessage()
  {
    var f := element.flags;
    var name := element.NameProperty();
    if name == "date" {
      var r := DateRules;
      assert r[1..][1..][1..][1..][1..][1..] == [];
      assert FirstRaised(r[1..][1..][1..][1..][1..], f) == if f.stepMismatch then Some("VALUE_MISMATCH_STEP") else None;
      assert FirstRaised(r[1..][1..][1..][1..], f) == if f.rangeUnderflow then Some("VALUE_TOO_LOW") else FirstRaised(r[1..][1..][1..][1..][1..], f);
      assert FirstRaised(r[1..][1..][1..], f) == if f.rangeOverflow then Some("VALUE_TOO_MUCH") else FirstRaised(r[1..][1..][1..][1..], f);
      assert FirstRaised(r[1..][1..], f) == if f.patternMismatch then Some("PATTERN_MISMATCH") else FirstRaised(r[1..][1..][1..], f);
      assert FirstRaised(r[1..], f) == if f.typeMismatch then Some("TYPE_MISMATCH") else FirstRaised(r[1..][1..], f);
    } else if name == "url" {
      var r := UrlRules;
      assert r[1..][1..][1..][1..] == [];
      assert FirstRaised(r[1..][1..][1..], f) == if f.tooShort then Some("VALUE_TOO_SHORT") else None;
      assert FirstRaised(r[1..][1..], f) == if f.tooLong then Some("VALUE_TOO_LONG") else FirstRaised(r[1..][1..][1..], f);
      assert FirstRaised(r[1..], f) == if f.patternMismatch then Some("PATTERN_MISMATCH") else FirstRaised(r[1..][1..], f);
    }
  }

  /** A flag outside the name's list never decides the code, and neither do the other fields of the element. */
  lemma DependsOnlyOnNameFlagsMessage(a: Control, b: Control)
    requires a.NameProperty() == b.NameProperty() && a.flags == b.flags
    requires a.ValidationMessage() == b.ValidationMessage()
    ensures GetErrorFromElement(a) == GetErrorFromElement(b)
  {
  }

  /** The codes the integration tests expect for the `date` and `url` inputs. */
  lemma {:induction false} DateAndUrlExamples(element: Control)
    ensures element.NameProperty() == "date" && element.flags.rangeOverflow && !element.flags.valueMissing
      && !element.flags.typeMismatch && !element.flags.patternMismatch
      ==> GetErrorFromElement(element) == "VALUE_TOO_MUCH"
    ensures element.NameProperty() == "url" && !element.flags.valueMissing && element.flags.patternMismatch
      && !element.flags.typeMismatch
      ==> GetErrorFromElement(element) == "PATTERN_MISMATCH"
  {
  }
}
