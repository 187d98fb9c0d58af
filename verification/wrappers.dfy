/** Failure-carrying result types shared by the model: a Python call that
    raises (a missing dictionary key, an empty sampling range, a tensor
    shape mismatch) becomes the failure case of one of these. */
module Wrappers {

  datatype Option<+T> = None | Some(value: T)

  datatype Result<+T, +E> = Success(value: T) | Failure(error: E)
}
