/** The optional value used for absent JSON fields and "no result" answers. */
module Wrappers {
  datatype Option<+T> = None | Some(value: T) {
    /** The value, or `default` when absent (PHP `??`, JavaScript `||` on a missing field). */
    function GetOr(default: T): T {
      match this
      case Some(v) => v
      case None => default
    }
  }
}
