/** Failure-compatible wrapper used across the model: `None` stands for
    JavaScript's `undefined`/`null` or for an operation that threw. */
module Wrappers {

  datatype Option<+T> = None | Some(value: T) {

    /** The wrapped value, or `default` when there is none (JavaScript's `??`). */
    function GetOr(default: T): T {
      match this
      case Some(v) => v
      case None => default
    }
  }
}
