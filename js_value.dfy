/**
 * The JavaScript values a tree can store, as far as `get` distinguishes them: its
 * result is the stored value or `undefined`, and every falsy stored value reads back
 * as `undefined`.
 */
module JsValues {

  /** A stored value. Numbers are integers; an object is known only by its identity. */
  datatype Value = Undefined | Null | Bool(b: bool) | Number(n: int) | Str(s: string) | Object(id: nat)

  /** JavaScript's falsy values among these: `undefined`, `null`, `false`, `0` and `""`. */
  predicate Falsy(v: Value)
  {
    match v
    case Undefined => true
    case Null => true
    case Bool(b) => !b
    case Number(n) => n == 0
    case Str(s) => s == ""
    case Object(_) => false
  }

  /** `a || b`: the first operand when it is truthy, the second otherwise. */
  function Or(a: Value, b: Value): (r: Value)
    ensures !Falsy(a) ==> r == a
    ensures Falsy(a) ==> r == b
  {
    if Falsy(a) then b else a
  }
}
