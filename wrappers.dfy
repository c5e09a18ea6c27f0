/** Optional values. An absent request field (`undefined`) is `None`; whether an empty
    string is `None` too depends on whether the handler tests the field for truthiness. */
module Wrappers {

  datatype Option<+T> = None | Some(value: T) {

    /** The value, or `default` when absent (JavaScript's `x ?? default`). */
    function GetOr(default: T): T {
      match this
      case Some(v) => v
      case None => default
    }
  }
}
