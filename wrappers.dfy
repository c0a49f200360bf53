/** Option and Result, with the two ways the source stops: a fatal error that
    ends the process, and a thrown error that propagates to the caller. */
module Wrappers {

  datatype Option<+T> = None | Some(value: T)

  datatype Result<+T, +E> = Ok(value: T) | Fatal(error: E) | Thrown(error: E) {

    predicate IsFailure() {
      !Ok?
    }

    /** Keeps the severity and the error, changes the value type. */
    function PropagateFailure<U>(): Result<U, E>
      requires !Ok?
    {
      if Fatal? then Fatal(error) else Thrown(error)
    }

    function Extract(): T
      requires Ok?
    {
      value
    }
  }
}
