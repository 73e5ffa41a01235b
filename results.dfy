/** Failure-compatible wrappers shared by the leaderboard modules. */
module Results {

  /** A value that may be absent, as a dictionary lookup or `find` may be. */
  datatype Option<+T> = None | Some(value: T)

  /** The outcome of a computation that can abort the run with an error. */
  datatype Result<+T, +E> = Success(value: T) | Failure(error: E)
}
