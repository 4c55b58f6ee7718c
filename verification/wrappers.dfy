/** The optional value shared by the other modules. */
module Wrappers {

  /** A value that may be absent: a C# `null` reference or a missing dictionary entry. */
  datatype Option<T> = None | Some(value: T) {

    /** The carried value, or `default` when there is none (the `??` operator). */
    function GetOr(default: T): T
    {
      match this
      case Some(v) => v
      case None => default
    }
  }
}
