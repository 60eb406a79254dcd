/** Java's nullable references and caught exceptions, as values. */
module Wrappers {

  /** `None` stands for Java's `null`, or for a call into a library that threw. */
  datatype Option<+T> = None | Some(value: T) {

    /** The wrapped value, or `default` when there is none. */
    function GetOr(default: T): T
    {
      match this
      case Some(v) => v
      case None => default
    }
  }
}
