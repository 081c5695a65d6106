/** The handful of JavaScript value semantics the widget's logic depends on:
    truthiness, the value-returning `||` and `&&`, strict inequality and the
    destructuring default that applies only to `undefined`. */
module Js {

  /** A JavaScript value as the widget sees it. Numbers are integers (no
      floating point, no NaN); objects and arrays are identified by reference,
      so two `Obj`s are `===` exactly when their references agree. */
  datatype Value =
    | Undefined
    | Null
    | Bool(b: bool)
    | Num(n: int)
    | Str(s: string)
    | Obj(ref: nat)

  /** `!!v` */
  predicate Truthy(v: Value) {
    match v
    case Undefined => false
    case Null => false
    case Bool(b) => b
    case Num(n) => n != 0
    case Str(s) => s != ""
    case Obj(_) => true
  }

  /** `a || b`: the first operand when it is truthy, otherwise the second. */
  function Or(a: Value, b: Value): (r: Value)
    ensures Truthy(r) <==> Truthy(a) || Truthy(b)
    ensures Truthy(a) ==> r == a
  {
    if Truthy(a) then a else b
  }

  /** `a && b`: the first operand when it is falsy, otherwise the second. */
  function And(a: Value, b: Value): (r: Value)
    ensures Truthy(r) <==> Truthy(a) && Truthy(b)
    ensures !Truthy(a) ==> r == a
  {
    if Truthy(a) then b else a
  }

  /** A destructuring default `{ x = d } = props`: replaces only `undefined`. */
  function Default(v: Value, d: Value): (r: Value)
    ensures v != Undefined ==> r == v
  {
    if v == Undefined then d else v
  }
}
