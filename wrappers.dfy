/** Small value wrappers shared by the whole model. */
module Wrappers {

  /** A value that may be absent (`undefined`, `null` or a missing field). */
  datatype Option<+T> = None | Some(value: T)
  {
    /** The wrapped value, or `default` when absent (the `x || default` idiom). */
    function GetOr(default: T): T
    {
      match this
      case Some(v) => v
      case None => default
    }
  }

  /**
   * How one awaited call to the storage API settled: resolved with a value, or
   * rejected. The client never inspects a rejection's reason, so `Err` carries none.
   */
  datatype Outcome<+T> = Ok(value: T) | Err
}
