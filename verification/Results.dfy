/** What may be missing, and what may be thrown. */
module Results {
  datatype Option<+T> = None | Some(value: T)

  /** The outcome of a call that may throw. */
  datatype Outcome<+T> = Returned(value: T) | Thrown
}
