/** Option, the shape of a value JavaScript may leave missing. */
module Wrappers {

  /** A value that may be missing: JavaScript's `undefined` / `null`. */
  datatype Option<+T> = None | Some(value: T) {

    /** The value, or `default` when missing. */
    function GetOr(default: T): T {
      match this
      case Some(v) => v
      case None => default
    }
  }
}
