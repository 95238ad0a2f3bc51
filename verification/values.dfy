/** Python values as far as the modelled code inspects them: their type
    (for the launch-command flags) and their truthiness (for `if x:`). */
module Values {
  import opened Wrappers

  datatype Value =
    | NoneValue
    | Bool(b: bool)
    | Int(i: int)
      /** A float, carried as the text Python prints for it. */
    | Float(repr: string)
    | Str(s: string)
    | List(items: seq<Value>)
      /** Any other object (a class, an instance): truthy, and of no type
          the launch command can encode. */
    | Object(name: string)

  /** Python truthiness. */
  predicate Truthy(v: Value) {
    match v
    case NoneValue => false
    case Bool(b) => b
    case Int(i) => i != 0
    case Float(r) => r != "0.0" && r != "-0.0"
    case Str(s) => |s| > 0
    case List(xs) => |xs| > 0
    case Object(_) => true
  }

  /** Truthiness of an optional string: neither `None` nor empty. */
  predicate Given(s: Option<string>) {
    s.Some? && |s.value| > 0
  }
}
