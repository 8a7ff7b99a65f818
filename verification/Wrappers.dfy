/** The two result types the repository's signatures use, and the three-way comparison result. */
module Wrappers {

  datatype Option<+T> = None | Some(value: T)

  /** Rust's `Result`; usable with `:-` like Rust's `?`. */
  datatype Result<+T, +E> = Ok(value: T) | Err(error: E) {
    predicate IsFailure() {
      Err?
    }

    function PropagateFailure<U>(): Result<U, E>
      requires Err?
    {
      Err(error)
    }

    function Extract(): T
      requires Ok?
    {
      value
    }
  }

  datatype Ordering = Less | Equal | Greater {
    function Flip(): Ordering {
      match this
      case Less => Greater
      case Equal => Equal
      case Greater => Less
    }

    /** Rust's `Ordering::then`. */
    function Then(other: Ordering): Ordering {
      if Equal? then other else this
    }
  }
}
