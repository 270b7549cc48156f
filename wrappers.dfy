/** Option and Result values shared by every module of the model. */
module Wrappers {
  /** A value that may be absent: a missing row, an omitted field, JavaScript null or undefined. */
  datatype Option<T> = None | Some(value: T)
  {
    function GetOr(default: T): (r: T)
      ensures Some? ==> r == value
      ensures None? ==> r == default
    {
      match this
      case None => default
      case Some(v) => v
    }
  }

  /** The outcome of a model call that either returns a value or throws an Error with a message. */
  datatype Result<T> = Ok(value: T) | Fail(message: string)
}
