/** Optional values, used where the program falls back to a default
    (`dict.get(key, default)`, `next(gen, default)`) or where a tier of the
    search can come back with nothing. */
module Wrappers {

  datatype Option<+T> = None | Some(value: T) {

    /** The wrapped value, or `default` when there is none. */
    function GetOr(default: T): T {
      match this
      case Some(v) => v
      case None => default
    }
  }
}
