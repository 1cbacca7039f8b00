/** The optional result used wherever the source returns `null` or `undefined`. */
module Wrappers {
  datatype Option<T> = None | Some(value: T) {
    function GetOr(default: T): T {
      match this
      case Some(v) => v
      case None => default
    }
  }

  /** The outcome of a form reader: the cleaned record, or the message the source shows before returning `null`. */
  datatype Result<T> = Ok(value: T) | Failure(error: string)
}
