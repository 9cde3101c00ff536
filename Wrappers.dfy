/** The optional value used wherever the script reads something that may be absent:
    an `undefined` array slot, a missing attribute, a regular expression that does not match. */
module Wrappers {

  datatype Option<+T> = None | Some(value: T) {

    /** The wrapped value, or `default` when there is none. */
    function GetOr(default: T): T {
      match this
      case Some(v) => v
      case None => default
    }
  }
}
