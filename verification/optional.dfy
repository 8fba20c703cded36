/** Failure-carrying values: a slot that may be unset, and an operation that may throw. */
module Optional {

  /** A value that may be absent, as a `null` slot of the game state is. */
  datatype Option<+T> = None | Some(value: T)

  /** The outcome of an operation that either yields a value or raises an error. */
  datatype Result<+T, +E> = Ok(value: T) | Err(error: E)
}
