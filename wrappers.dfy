/** Option and Result types shared by the whole model. */
module Wrappers {
  datatype Option<T> = None | Some(value: T)

  /** Why a JavaScript operation did not return normally. */
  datatype Failure =
    | Error(message: string)   // `throw new Error(message)`
    | TypeError                // a TypeError raised by the runtime itself

  datatype Result<T> = Ok(value: T) | Err(failure: Failure)
  {
    predicate IsOk() { Ok? }
  }
}
