/** Failure-carrying results for the operations that can reject their input. */
module Results {
  /** A value, or nothing where the source throws. */
  datatype Option<+T> = None | Some(value: T)

  /** Success, or the error a validation check reports. */
  datatype Outcome<+E> = Pass | Fail(error: E)
}
