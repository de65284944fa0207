/** The optional value used wherever the program reads something that may be
    absent: an undefined object property, a missing localStorage key, a
    `findOne` that matches nothing. */
module Wrappers {

  datatype Option<+T> = None | Some(value: T) {

    /** The value, or `default` when absent (JavaScript's `x ?? default`). */
    function GetOr(default: T): T {
      match this
      case Some(v) => v
      case None => default
    }
  }
}
