/** Optional values and fallible results, the two shapes the plugin's Python
    code expresses with `None` and with raised exceptions. */
module Wrappers {

  /** `None` in Python, or a present value. */
  datatype Option<+T> = None | Some(value: T) {

    /** The present value, or `default` when absent. */
    function GetOr(default: T): T {
      match this
      case Some(v) => v
      case None => default
    }
  }

  /** A computation that either produced a value or raised an exception
      (the exception's message is kept for documentation only). */
  datatype Result<+T> = Ok(value: T) | Err(message: string) {

    /** The value of a successful computation, `None` after an exception. */
    function ToOption(): Option<T> {
      match this
      case Ok(v) => Some(v)
      case Err(_) => None
    }
  }
}
