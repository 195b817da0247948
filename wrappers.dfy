/** Failure-carrying results used in place of the `unwrap` panics of the Rust code. */
module Wrappers {

  datatype Option<+T> = None | Some(value: T)

  datatype Result<+R, +E> = Ok(value: R) | Err(error: E) {
    predicate IsFailure() { Err? }

    function PropagateFailure<U>(): Result<U, E>
      requires Err?
    {
      Err(error)
    }

    function Extract(): R
      requires Ok?
    {
      value
    }
  }

  /** A result that carries no value on success (Rust's `()` return). */
  datatype Outcome<+E> = Pass | Fail(error: E)
}
