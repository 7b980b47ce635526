/** Failure-carrying result types shared by the modules of the detector model. */
module Wrappers {

  datatype Option<+T> = None | Some(value: T)

  /** The success value of a step, or the error that aborts the whole call. */
  datatype Result<+R, +E> = Success(value: R) | Failure(error: E)
}
