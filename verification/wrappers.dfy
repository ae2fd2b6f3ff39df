/** Result types shared by every module of the model. */
module Wrappers {

  datatype Option<T> = None | Some(value: T)

  /** Rust's `Result<T, E>`. */
  datatype Result<T, E> = Ok(value: T) | Err(error: E) {
    predicate IsFailure() {
      Err?
    }

    function PropagateFailure<U>(): Result<U, E>
      requires Err?
    {
      Err(error)
    }

    function Extract(): T
      requires Ok?
    {
      value
    }
  }

  /** A computation that either finishes with a value or halts the kernel
      with a `panic!` (or a failed `assert!`, `expect` or `unreachable!`). */
  datatype Outcome<T> = Done(value: T) | Panic(msg: string) {
    predicate IsFailure() {
      Panic?
    }

    function PropagateFailure<U>(): Outcome<U>
      requires Panic?
    {
      Panic(msg)
    }

    function Extract(): T
      requires Done?
    {
      value
    }
  }
}
