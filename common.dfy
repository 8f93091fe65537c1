/** Value-level helpers shared by the model: Option/Result and the two pieces of
    JavaScript string semantics the source relies on. */
module Common {

  datatype Option<+T> = None | Some(value: T) {
    function GetOr(default: T): T {
      match this
      case Some(v) => v
      case None => default
    }
  }

  datatype Result<+T, +E> = Ok(value: T) | Err(error: E)

  /** An 8-bit byte. */
  type Byte = b: int | 0 <= b < 256

  /** A JavaScript value that is either `undefined` or a string. */
  type JsString = Option<string>

  /** JavaScript truthiness of such a value: `undefined` and "" are falsy. */
  predicate Truthy(v: JsString) {
    v.Some? && v.value != ""
  }

  /** JavaScript `a || b` on two such values. */
  function Or(a: JsString, b: JsString): (r: JsString)
    ensures Truthy(a) ==> r == a
    ensures !Truthy(a) ==> r == b
  {
    if Truthy(a) then a else b
  }

  /** The text a template literal `${v}` produces for such a value. */
  function JsText(v: JsString): (r: string)
    ensures v.Some? ==> r == v.value
    ensures v.None? ==> r == "undefined"
  {
    match v
    case Some(s) => s
    case None => "undefined"
  }
}
