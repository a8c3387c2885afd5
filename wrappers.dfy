/** Optional values and success-or-error results shared by the quiz modules. */
module Wrappers {

  /** A value that may be absent: JavaScript's `null`/`undefined` versus an object. */
  datatype Option<+T> = None | Some(value: T)

  /** The outcome of an operation that may fail: a network call (the error is the
      exception's `message`) or a computation that throws. */
  datatype Result<+T, +E> = Success(value: T) | Failure(error: E)

  /** JavaScript truthiness of an optional message: `null` and the empty string are falsy. */
  predicate Truthy(message: Option<string>) {
    message.Some? && message.value != ""
  }
}
