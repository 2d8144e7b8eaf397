/** Failure-carrying results shared by all modules. */
module Wrappers {

  datatype Option<+T> = None | Some(value: T)

  /** A Rust `Result`: either a value or the reason there is none. */
  datatype Result<+T, +E> = Ok(value: T) | Err(error: E) {
    predicate IsFailure() { Err? }

    function PropagateFailure<U>(): (r: Result<U, E>)
      requires Err?
    {
      Err(error)
    }

    function Extract(): T
      requires Ok?
    {
      value
    }
  }
}
