/** Optional values: the model's stand-in for PHP's nullable values. */
module Wrappers {

  /** `None` plays the role of PHP's `null`. */
  datatype Option<+T> = None | Some(value: T) {

    /** The encapsulated value, or `default` for `None` (PHP's `??`). */
    function GetOr(default: T): T {
      match this
      case Some(v) => v
      case None => default
    }
  }
}
