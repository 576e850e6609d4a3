/** Option and Result, the two shapes the app uses for "null" and for thrown errors. */
module Wrappers {

  /** A value or its absence (`null` / `undefined` in the source). */
  datatype Option<+T> = None | Some(value: T)

  /** A successful value or an error message. */
  datatype Result<+R, +E> = Success(value: R) | Failure(error: E)

  /** JavaScript truthiness of an optional string: present and not empty. */
  predicate Truthy(s: Option<string>) {
    s.Some? && s.value != ""
  }
}
