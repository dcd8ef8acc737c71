/**
 * The JavaScript values that cross the boundary of the core: results of
 * user-supplied validators and the properties read from them.
 */
module JsValues {

  /**
   * A JavaScript value, as far as the core can tell values apart.
   * Numbers are integers; `SafeStr` is an Ember SafeString (built by
   * `htmlSafe`); `Func` is any function value.
   */
  datatype JsValue =
    | Undefined
    | Null
    | Bool(b: bool)
    | Num(n: int)
    | Str(s: string)
    | SafeStr(html: string)
    | Func
    | Array(elems: seq<JsValue>)
    | Object(props: map<string, JsValue>)

  /** JavaScript truthiness: every object (a SafeString included) is truthy. */
  predicate Truthy(v: JsValue) {
    match v
    case Undefined => false
    case Null => false
    case Bool(b) => b
    case Num(n) => n != 0
    case Str(s) => s != ""
    case _ => true
  }

  /** `typeof v === 'object'`: true for null, arrays and every object. */
  predicate TypeofIsObject(v: JsValue) {
    v.Null? || v.SafeStr? || v.Array? || v.Object?
  }

  /** Reading property `key` of `v` (`v[key]`) for the properties the core reads. */
  function Prop(v: JsValue, key: string): JsValue {
    match v
    case Object(props) => if key in props then props[key] else Undefined
    case _ => Undefined
  }

  /**
   * Ember's `isEmpty`: null and undefined are empty; a value with a numeric
   * `size` is empty when it is 0; otherwise a value with a numeric `length`
   * (a string, an array, an object with such a key) is empty when it is 0.
   * A plain object such as `{}` is not empty.
   */
  predicate EmberIsEmpty(v: JsValue) {
    match v
    case Undefined => true
    case Null => true
    case Str(s) => |s| == 0
    case Array(elems) => |elems| == 0
    case Object(props) =>
      if "size" in props && props["size"].Num? then props["size"].n == 0
      else if "length" in props && props["length"].Num? then props["length"].n == 0
      else false
    case _ => false
  }

  function DigitChar(d: nat): char
    requires d < 10
  {
    "0123456789"[d]
  }

  function NatToString(n: nat): string
    decreases n
  {
    if n < 10 then [DigitChar(n)] else NatToString(n / 10) + [DigitChar(n % 10)]
  }

  /** `String(v)`, as used by template literals and by DOMString conversion. */
  function ToJsString(v: JsValue): string
    decreases v
  {
    match v
    case Undefined => "undefined"
    case Null => "null"
    case Bool(b) => if b then "true" else "false"
    case Num(n) => if n < 0 then "-" + NatToString(-n) else NatToString(n)
    case Str(s) => s
    case SafeStr(html) => html
    case Func => "[function]"
    case Array(elems) => JoinElements(elems)
    case Object(_) => "[object Object]"
  }

  /** `Array.prototype.join(',')`: null and undefined elements become "". */
  function JoinElements(elems: seq<JsValue>): string
    decreases elems
  {
    if elems == [] then ""
    else
      var first := if elems[0].Undefined? || elems[0].Null? then "" else ToJsString(elems[0]);
      if |elems| == 1 then first else first + "," + JoinElements(elems[1..])
  }
}
