/** Optional values and error-carrying results, used in place of JavaScript's
    `undefined` fields and thrown exceptions. */
module Results {

  /** A value that may be absent (a JavaScript field that is `undefined`). */
  datatype Option<+T> = None | Some(value: T) {

    /** The value, or `default` when absent (JavaScript's `x ?? default`). */
    function GetOr(default: T): T {
      match this
      case Some(v) => v
      case None => default
    }
  }

  /** The outcome of an operation that either returns a value or throws. */
  datatype Result<+T, +E> = Ok(value: T) | Err(error: E)
}
