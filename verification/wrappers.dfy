/** The Option datatype used throughout the model for "maybe absent" values:
    a missing JSON field, a failed lookup, or a JavaScript NaN. */
module Wrappers {

  datatype Option<+T> = None | Some(value: T) {

    /** Returns the value in Some, or `default` when None (JavaScript's `x || default`
        for values whose only falsy form is "absent"). */
    function GetOr(default: T): T {
      match this
      case Some(v) => v
      case None => default
    }
  }
}
