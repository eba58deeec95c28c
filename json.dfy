/**
 * The JSON values an Express request body can carry, seen through
 * JavaScript's truthiness and typeof tests.
 */
module Json {
  /** A field of a parsed body; Undefined is a missing key, Composite an array or object. */
  datatype JsonValue = Undefined | Null | Bool(b: bool) | Num(n: real) | Str(s: string) | Composite

  /** JavaScript truthiness: undefined, null, false, 0 and "" are falsy. */
  predicate Truthy(v: JsonValue) {
    match v
    case Undefined => false
    case Null => false
    case Bool(b) => b
    case Num(n) => n != 0.0
    case Str(s) => s != ""
    case Composite => true
  }
}
