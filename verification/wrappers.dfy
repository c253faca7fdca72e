/**
 * Optional values: the model's stand-in for JavaScript's `null` / `undefined`.
 * `GetOr` is the only helper the model needs.
 */
module Wrappers {

  datatype Option<+T> = None | Some(value: T) {

    /** Returns the wrapped value, or `default` when there is none (JavaScript's `x ?? d`). */
    function GetOr(default: T): T {
      match this
      case Some(v) => v
      case None => default
    }
  }
}
