/** Optional values and error-carrying results shared by every module. */
module Wrappers {
  /** A value that may be missing; `:-` on it propagates the missing case. */
  datatype Option<T> = None | Some(value: T) {
    function GetOr(default: T): T { if Some? then value else default }
    predicate IsFailure() { None? }
    function PropagateFailure<U>(): Option<U>
      requires None?
    {
      None
    }
    function Extract(): T
      requires Some?
    {
      value
    }
  }

  datatype Result<T> = Ok(value: T) | Err(error: string)

  /** A handler either goes on with a value or refuses with an HTTP status and a message. */
  datatype Checked<T> = Pass(value: T) | Refuse(code: int, message: string)
}
