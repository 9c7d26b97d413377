/**
 * What a storage call (upload or remove) gives back to the route, and the
 * JSON values the routes read from a request body.
 */
module Store {
  import opened JsText

  /**
   * The result of awaiting a storage call: no error, an error object whose
   * `message` is a string or undefined, or a rejected promise.
   */
  datatype StoreResult =
    | StoreOk
    | StoreError(message: Option<string>)
    | StoreThrew

  /**
   * A field of a parsed request body: absent, a string, or some other JSON
   * value (number, boolean, null, array, object) of the given truthiness.
   */
  datatype Field =
    | Missing
    | Str(s: string)
    | OtherValue(truthy: bool)

  /** JavaScript truthiness of a body field. */
  predicate Truthy(f: Field)
    ensures !Truthy(f) <==> f == Missing || f == Str([]) || f == OtherValue(false)
  {
    match f
    case Missing => false
    case Str(s) => s != []
    case OtherValue(t) => t
  }
}
