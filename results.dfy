/** Failure-carrying values: the exceptions new_release.py raises become values here. */
module Results {

  datatype Option<T> = None | Some(value: T)

  /** The two exceptions the modelled code can end in: its own NewReleaseError, with its
      message, and the TypeError that `re` raises when it is handed None instead of a string. */
  datatype Error = NewReleaseError(message: string) | TypeError

  /** A value, or the exception that was raised instead of returning one. */
  datatype Result<T> = Ok(value: T) | Err(error: Error)

  /** Returning normally (with nothing), or raising. */
  datatype Outcome = Pass | Fail(error: Error)
}
