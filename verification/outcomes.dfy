/** The two failure-carrying shapes the model needs: an optional value and a
    success-or-error result. */
module Outcomes {

  datatype Option<+T> = None | Some(value: T)

  datatype Result<+T, +E> = Success(value: T) | Failure(error: E)
}
