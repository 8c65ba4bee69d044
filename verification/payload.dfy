/**
 * The loosely typed request values the blog controller receives: a JSON body
 * or multipart form fields, where any field may be absent, a string, an array
 * or an object, and JavaScript's truthiness decides most branches.
 */
module Payload {
  import opened Wrappers

  /** A JSON-like value. Numbers are whole numbers here. */
  datatype Value =
    | Null
    | Bool(b: bool)
    | Num(n: int)
    | Str(s: string)
    | Arr(items: seq<Value>)
    | Obj(fields: map<string, Value>)

  /** JavaScript truthiness: `null`, `false`, `0` and `""` are falsy; arrays and objects are truthy. */
  predicate Truthy(v: Value) {
    match v
    case Null => false
    case Bool(b) => b
    case Num(n) => n != 0
    case Str(s) => s != ""
    case Arr(_) => true
    case Obj(_) => true
  }

  /** A request field that is present and truthy, i.e. passes `if (field)`. */
  predicate Present(f: Option<Value>) {
    f.Some? && Truthy(f.value)
  }

  /**
   * `JSON.parse` as an oracle: `None` stands for the thrown `SyntaxError`.
   * Which strings parse, and to what, is left to the caller.
   */
  type JsonParse = string -> Option<Value>
}
