/** Option and Result types shared by every module: JavaScript's
    `undefined`/`null` and "not found" results become `None`, and a thrown
    error becomes `Failure`. */
module Wrappers {

  datatype Option<+T> = None | Some(value: T) {

    /** The wrapped value, or `default` when absent (the `??` operator). */
    function GetOr(default: T): T {
      match this
      case Some(v) => v
      case None => default
    }
  }

  /** The outcome of an operation that either returns a value or throws. */
  datatype Result<+T, +E> = Success(value: T) | Failure(error: E)

  /** An optional string used as a JavaScript condition: absent and empty are both false. */
  predicate Truthy(o: Option<string>) {
    o.Some? && o.value != ""
  }
}
