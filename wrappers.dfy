/** Option, the absent-or-present value used across the model (a missing PHP
    array key, a `null` DOM lookup, a URL that does not parse). */
module Wrappers {

  datatype Option<+T> = None | Some(value: T) {

    /** The value, or `default` when absent. */
    function GetOr(default: T): T {
      match this
      case Some(v) => v
      case None => default
    }
  }
}
