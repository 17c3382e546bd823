/**
 The slice of JavaScript's value semantics the handlers depend on: a payload
 field is undefined, a boolean, a string or some other value, and the code
 only ever asks whether it is truthy or, for strings, what it contains.
 */
module JsValue {

  /** A field of a received payload. `Other` stands for any remaining value
      (number, object, null) and records only whether JavaScript treats it as truthy. */
  datatype Value = Undefined | Bool(b: bool) | Str(s: string) | Other(truthy: bool)

  /** JavaScript truthiness, as used by `if (x)`, `!x` and `x || y`. */
  function Truthy(v: Value): (b: bool)
    ensures !b <==> v in [Undefined, Bool(false), Str(""), Other(false)]
    ensures v.Str? ==> (b <==> |v.s| > 0)
  {
    match v
    case Undefined => false
    case Bool(b) => b
    case Str(s) => s != ""
    case Other(t) => t
  }

  /** `v || fallback`: the value itself when truthy, the fallback otherwise. */
  function OrElse(v: Value, fallback: Value): Value {
    if Truthy(v) then v else fallback
  }
}
