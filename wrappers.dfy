/** Failure-carrying values used in place of Go's `(value, error)` returns. */
module Wrappers {

  datatype Option<T> = None | Some(value: T)

  datatype Result<T, E> = Success(value: T) | Failure(error: E)
  {
    /** The value, or `default` on failure: what a Go caller that writes
        `v, _ := f(x)` sees, since `f` returns its zero value beside an error. */
    function GetOr(default: T): T
    {
      if Success? then value else default
    }
  }
}
