/** Optional values: a JavaScript `null`/`undefined` field or an absent key. */
module Wrappers {

  datatype Option<+T> = None | Some(value: T) {

    /** The present value, or `default` when there is none (`x || default` on a nullable field). */
    function GetOr(default: T): T {
      match this
      case Some(v) => v
      case None => default
    }
  }
}
