/** Option and Result: the presence or absence of a value, and the success or
    failure of a step, used where the service's collaborators may give no
    answer or raise. */
module Wrappers {

  datatype Option<+T> = None | Some(value: T)

  datatype Result<+R, +E> = Success(value: R) | Failure(error: E)
}
