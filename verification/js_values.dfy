/** The values a route reads out of a parsed JSON request body, and the
    JavaScript truthiness the routes test them with. */
module JsValues {

  /** A field of the request body: absent (`undefined`) or a JSON value.
      Numbers are kept as integers: only whether they are zero matters here. */
  datatype JsValue =
    | Undefined
    | Null
    | Bool(b: bool)
    | Number(n: int)
    | Str(s: string)
    | Array
    | Object

  /** `!!v`: `undefined`, `null`, `false`, `0` and `""` are falsy, all else truthy. */
  predicate Truthy(v: JsValue) {
    match v
    case Undefined => false
    case Null => false
    case Bool(b) => b
    case Number(n) => n != 0
    case Str(s) => s != ""
    case Array => true
    case Object => true
  }
}
