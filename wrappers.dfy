/** Failure-compatible result types shared by every component. */
module Wrappers {

  datatype Option<+T> = None | Some(value: T) {
    predicate IsFailure() { None? }

    function PropagateFailure<U>(): Option<U>
      requires None?
    {
      None
    }

    function Extract(): T
      requires Some?
    {
      value
    }
  }

  datatype Result<+R, +E> = Success(value: R) | Failure(error: E) {
    predicate IsFailure() { Failure? }

    function PropagateFailure<U>(): Result<U, E>
      requires Failure?
    {
      Failure(error)
    }

    function Extract(): R
      requires Success?
    {
      value
    }
  }
}

/** The ways one run of the assistant can fail; each one ends the run. */
module Errors {

  datatype Error =
    | EmptyPrompt   // neither clipboard text nor an instruction
    | Storage       // the conversations table is missing
    | Transport     // the model endpoint gave no reply
    | CorruptData   // a stored field is not Base64 of UTF-8 text
}
