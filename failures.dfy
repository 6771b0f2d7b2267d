/** The outcome of an operation that the Python source lets raise an exception. */
module Failures {

  /** The exceptions the modelled code raises on inputs it does not handle. */
  datatype Exception = IndexError | ValueError | KeyError | StopIteration | AssertionError | TypeError | AxisError

  datatype Outcome<T> = Success(value: T) | Failure(error: Exception)

  datatype Option<T> = None | Some(value: T)

  /**
   * What a loop that may never stop does within a bound: finish with a
   * value, raise, or still be running when the bound is reached.
   */
  datatype Run<T> = Done(value: T) | Raised(error: Exception) | Unfinished
}
