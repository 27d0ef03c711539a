/** Small failure-carrying datatypes shared by the other modules. */
module Wrappers {

  /** A value that may be absent; used for a preference key that may not be stored. */
  datatype Option<T> = None | Some(value: T) {
    /** The stored value, or `default` when the key is absent. */
    function GetOr(default: T): T {
      match this
      case Some(v) => v
      case None => default
    }
  }

  /** The outcome of an operation that returns nothing on success. */
  datatype Outcome<E> = Pass | Fail(error: E)
}
