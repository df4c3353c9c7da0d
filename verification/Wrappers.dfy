/** Optional values, and results that carry one of the system's error codes. */
module Wrappers {

  datatype Option<+T> = None | Some(value: T)

  /** The error codes thrown by the modelled operations. */
  datatype Error =
    | TreeNotFound
    | RefNotFound
    | NodeNotFound
    | BranchNotFound
    | ProtectedBranch
    | DuplicateId
    | EmptyBranch
    | FileNotFound
    | BisectInvalidRange

  datatype Result<+T> = Success(value: T) | Failure(error: Error) {
    predicate IsFailure() {
      Failure?
    }

    function PropagateFailure<U>(): Result<U>
      requires Failure?
    {
      Failure(error)
    }

    function Extract(): T
      requires Success?
    {
      value
    }
  }
}
