/**
 * A dynamically typed Python value as it arrives from a parsed JSON reply:
 * None, a bool, an int, a str, a list, or anything else (a dict, a float),
 * of which only its Python truthiness is kept.
 */
module Values {

  datatype Value =
    | Null
    | Bool(b: bool)
    | Int(n: int)
    | Str(s: string)
    | List(items: seq<Value>)
    | Other(truthy: bool)

  /** Python truthiness; an empty dict or 0.0 is a falsy `Other`. */
  predicate Truthy(v: Value) {
    if v.Null? then false
    else if v.Bool? then v.b
    else if v.Int? then v.n != 0
    else if v.Str? then v.s != ""
    else if v.List? then v.items != []
    else v.truthy
  }
}
