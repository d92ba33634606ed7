/** The optional value used wherever the source returns `null`/`undefined`
    or a field may be missing from a stored object. */
module Wrappers {

  datatype Option<+T> = None | Some(value: T) {

    /** The value, or `default` when it is missing (the `??` and `||` defaults). */
    function GetOr(default: T): T {
      match this
      case Some(v) => v
      case None => default
    }
  }
}
