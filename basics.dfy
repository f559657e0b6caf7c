/** Optional values: JavaScript's `null` / `undefined` for a field or a lookup. */
module Basics {

  datatype Option<+T> = None | Some(value: T) {

    /** The value, or `default` when absent (JavaScript's `??`). */
    function GetOr(default: T): T {
      match this
      case Some(v) => v
      case None => default
    }
  }

  /** What a server action returns: `{ data }` or `{ error }` with its message. */
  datatype Result<+T> = Ok(value: T) | Err(message: string)

  /** What a server action without data returns: `{ success: true }` or `{ error }`. */
  datatype Outcome = Success | Failure(message: string)
}
