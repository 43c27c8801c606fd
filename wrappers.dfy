/** A value that may be absent: SQL NULL, a JavaScript `undefined`, a row that
    a query did not find. */
module Wrappers {

  datatype Option<+T> = None | Some(value: T) {

    /** The value when present, otherwise the given default (JavaScript's `x || d`
        for a field that is either absent or present). */
    function GetOr(default: T): T {
      match this
      case Some(v) => v
      case None => default
    }
  }
}
