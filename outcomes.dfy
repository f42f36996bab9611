/** Option and Result values shared by every module of the model.

    Rust's `Option` and `Result` map onto these directly. A Rust panic is
    modelled as an `Err` carrying a `Panic`, so that the conditions under
    which the original program aborts can be stated and proved. */
module Outcomes {

  datatype Option<+T> = None | Some(value: T) {
    /** `unwrap_or(default)` */
    function GetOr(default: T): T {
      match this
      case Some(v) => v
      case None => default
    }
  }

  datatype Result<+T, +E> = Ok(value: T) | Err(error: E) {
    predicate IsFailure() { Err? }

    function PropagateFailure<U>(): Result<U, E>
      requires Err?
    {
      Err(error)
    }

    function Extract(): T
      requires Ok?
    {
      value
    }
  }

  /** A Rust panic, with the message the program would print. */
  datatype Panic = Panic(message: string)
}
