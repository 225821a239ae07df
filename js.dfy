/** The JavaScript values a handler can read out of a parsed JSON request body, with
    the two operators the handlers apply to them: `typeof` and truthiness (`!x`, `x || y`). */
module Js {

  datatype Option<T> = None | Some(value: T)

  /** A JavaScript value. Numbers are integers here (no NaN, no fractions); `JObj`
      stands for every object and array, whose contents the handlers never inspect. */
  datatype JsValue =
    | JStr(s: string)
    | JNum(n: int)
    | JBool(b: bool)
    | JNull
    | JUndefined
    | JObj

  /** The `typeof` operator. Note that `typeof null` is "object". */
  function TypeOf(v: JsValue): (r: string)
    ensures r == "string" <==> v.JStr?
    ensures r == "number" <==> v.JNum?
    ensures r == "undefined" <==> v.JUndefined?
    ensures r == "object" <==> v.JNull? || v.JObj?
  {
    match v
    case JStr(_) => "string"
    case JNum(_) => "number"
    case JBool(_) => "boolean"
    case JUndefined => "undefined"
    case JNull => "object"
    case JObj => "object"
  }

  /** JavaScript truthiness, as tested by `!x` and `x || y`. */
  predicate Truthy(v: JsValue)
    ensures !Truthy(v) <==> v in {JStr(""), JNum(0), JBool(false), JNull, JUndefined}
  {
    match v
    case JStr(s) => s != ""
    case JNum(n) => n != 0
    case JBool(b) => b
    case JNull => false
    case JUndefined => false
    case JObj => true
  }

  /** The `a || b` operator: `a` when it is truthy, otherwise `b`. */
  function Or(a: JsValue, b: JsValue): (r: JsValue)
    ensures Truthy(a) ==> r == a
    ensures !Truthy(a) ==> r == b
    ensures Truthy(r) <==> Truthy(a) || Truthy(b)
  {
    if Truthy(a) then a else b
  }

  /** Reading a property of the request body: a missing property reads as undefined. */
  function Field(body: map<string, JsValue>, name: string): (v: JsValue)
    ensures name in body ==> v == body[name]
    ensures name !in body ==> v.JUndefined?
  {
    if name in body then body[name] else JUndefined
  }
}
