/** Failure-compatible wrappers shared by the rest of the model.
    `Option` stands for a JavaScript value that may be null/undefined (or a
    Python attribute that may be absent); `Result` for an operation that may
    end in an HTTP error or a thrown exception. */
module Wrappers {

  datatype Option<+T> = None | Some(value: T) {

    /** The wrapped value, or `default` when there is none. */
    function GetOr(default: T): T {
      match this
      case Some(v) => v
      case None => default
    }
  }

  datatype Result<+R, +E> = Success(value: R) | Failure(error: E)

  /** The result of an asynchronous call whose payload does not matter:
      the promise either resolves or rejects. */
  datatype Outcome = Resolved | Rejected
}
