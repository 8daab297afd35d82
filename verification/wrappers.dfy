/** Optional values and the one piece of JavaScript value semantics the handlers rely on. */
module Wrappers {

  /** A value that may be absent (`undefined`/`null` in the handlers). */
  datatype Option<+T> = None | Some(value: T)

  /** JavaScript truthiness of a string-or-nothing: `undefined`, `null` and `''` are falsy. */
  predicate Truthy(v: Option<string>)
  {
    v.Some? && v.value != ""
  }
}
