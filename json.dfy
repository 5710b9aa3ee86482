/** Values of a parsed translation bundle, and JavaScript's notion of truthiness on them. */
module Json {

  datatype Option<+T> = None | Some(value: T)

  /** A JSON value as `response.json()` produces it. Numbers are kept as exact reals. */
  datatype Json =
    | Null
    | Bool(b: bool)
    | Num(n: real)
    | Str(s: string)
    | Arr(items: seq<Json>)
    | Obj(fields: map<string, Json>)

  /**
   * JavaScript truthiness of the value a property access produced; `None` stands
   * for `undefined`. Objects and arrays are truthy even when empty.
   */
  predicate Truthy(v: Option<Json>)
  {
    match v
    case None => false
    case Some(Null) => false
    case Some(Bool(b)) => b
    case Some(Num(n)) => n != 0.0
    case Some(Str(s)) => s != ""
    case Some(Arr(_)) => true
    case Some(Obj(_)) => true
  }
}
