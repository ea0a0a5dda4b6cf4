/** Optional values: JavaScript's `undefined`/`null` next to a present value. */
module Wrappers {

  datatype Option<+T> = None | Some(value: T)

  /** A value, or the message of the Error the source throws instead. */
  datatype Result<+T> = Ok(value: T) | Err(message: string)

  /** JavaScript truthiness of an optional string: absent and "" are falsy. */
  predicate Truthy(o: Option<string>) {
    o.Some? && o.value != ""
  }

  /** String(o): an absent value prints as "undefined" in a template literal or concatenation. */
  function JsString(o: Option<string>): string {
    match o
    case Some(s) => s
    case None => "undefined"
  }
}
