/**
 * The JavaScript values a decoded JSON request body can hand to a route
 * handler, and the coercions the handlers apply to them. Numbers are finite;
 * objects and arrays are opaque.
 */
module JsValues {

  /** A field of a request body. A field the body does not carry reads as
      `undefined`; `JNum` holds finite numbers only; objects and arrays are
      lumped together as `JOther`. */
  datatype JsValue =
    | JUndefined
    | JNull
    | JBool(b: bool)
    | JNum(n: real)
    | JStr(s: string)
    | JOther

  /** JavaScript's ToBoolean: what `!!v` yields and what `v || w` tests. */
  predicate Truthy(v: JsValue) {
    match v
    case JUndefined => false
    case JNull => false
    case JBool(b) => b
    case JNum(n) => n != 0.0
    case JStr(s) => s != ""
    case JOther => true
  }

  /** `typeof v === 'string'` */
  predicate IsString(v: JsValue) {
    v.JStr?
  }

  /** `a || b`: the left operand when it is truthy, the right one otherwise. */
  function Or(a: JsValue, b: JsValue): (r: JsValue) {
    if Truthy(a) then a else b
  }

  /** The falsy values are exactly undefined, null, false, 0 and the empty string. */
  lemma FalsyValues(v: JsValue)
    ensures !Truthy(v) <==> v in {JUndefined, JNull, JBool(false), JNum(0.0), JStr("")}
  {
  }
}
