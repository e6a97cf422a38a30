/** The optional and fallible values of the model.

    `Option` stands for a JavaScript value that may be `undefined` or `null`
    (a missing property, a `null` returned by a parser); `Result` stands for a
    computation that may throw, with `Failure` carrying the exception's kind. */
module Wrappers {

  datatype Option<+T> = None | Some(value: T) {

    /** The value, or `default` when there is none (JavaScript's `x ?? default`). */
    function GetOr(default: T): T {
      match this
      case Some(v) => v
      case None => default
    }
  }

  datatype Result<+R, +E> = Success(value: R) | Failure(error: E)
}
