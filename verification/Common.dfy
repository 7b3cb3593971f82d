/** Failure-carrying values shared by the whole model. */
module Common {

  datatype Option<+T> = None | Some(value: T) {
    predicate IsFailure() { None? }

    function PropagateFailure<U>(): Option<U>
      requires None?
    {
      None
    }

    function Extract(): T
      requires Some?
    {
      value
    }
  }

  datatype Result<+T, +E> = Ok(value: T) | Err(error: E)

  /** The error of a call to the cluster; a conflict is an update based on a version that is no longer current. */
  datatype ClientError = Conflict | Failure(message: string)

  /** The attempts that `RetryOnConflict` makes with the default retry. */
  const MAX_ATTEMPTS: nat := 5
}
