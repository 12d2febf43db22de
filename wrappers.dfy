/** Optional values and the outcome of a call into the REST backend. */
module Wrappers {

  /** `undefined`/`null` or a present value. */
  datatype Option<+T> = None | Some(value: T) {
    /** The `??` operator: the value if present, else the default. */
    function GetOr(default: T): T {
      match this
      case Some(v) => v
      case None => default
    }
  }

  /** What an awaited service call produced: its value, or a rejected promise. */
  datatype Outcome<+T> = Ok(value: T) | Failed
}
