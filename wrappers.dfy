/** Optional values: `None` stands for JavaScript's `null`/`undefined` where the
    source does not tell the two apart. */
module Wrappers {

  datatype Option<+T> = None | Some(value: T) {

    /** The wrapped value, or `default` when there is none. */
    function GetOr(default: T): T {
      match this
      case Some(v) => v
      case None => default
    }
  }
}
