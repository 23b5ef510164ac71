/** Option and Result, the latter usable with `:-` so that a lookup that
    raises in snowtrace.py stops the computation with an error. */
module Wrappers {

  datatype Option<+T> = None | Some(value: T)

  datatype Result<+T, +E> = Success(value: T) | Failure(error: E) {

    predicate IsFailure() {
      Failure?
    }

    function PropagateFailure<U>(): Result<U, E>
      requires Failure?
    {
      Failure(error)
    }

    function Extract(): T
      requires Success?
    {
      value
    }

    function ToOption(): Option<T> {
      if Success? then Some(value) else None
    }
  }
}
