/** Errors raised by the release helper, and the result type that carries them. */
module Errors {

  /** Why a `GitError` was raised. */
  datatype Reason =
    | InvalidVersion        // arithmetic on a version at or below 0.0.0
    | PreviousNotReleased   // the release tag of the previous version is missing
    | NextAlreadyStarted    // a release candidate of the next version exists
    | CommandFailed         // a git command exited with a non-zero status

  /** The two exception classes the helper raises. */
  datatype Error = GitError(reason: Reason) | ValueError

  datatype Result<T> = Success(value: T) | Failure(error: Error)

  datatype Option<T> = None | Some(value: T)
}
