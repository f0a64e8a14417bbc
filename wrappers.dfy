/** Optional values and results with an error, used by every module of the model. */
module Wrappers {

  /** A value that may be missing: Python's `None` or a present value. */
  datatype Option<+T> = None | Some(value: T) {

    /** The value, or `default` when there is none (Python's `x or default` on a present/absent value). */
    function GetOr(default: T): T {
      match this
      case Some(v) => v
      case None => default
    }
  }

  /** Either the value an operation returns or the error it raises. */
  datatype Result<+T, +E> = Success(value: T) | Failure(error: E)
}

/** The error responses FastAPI produces: an `HTTPException` raised by a handler, or the plain 500 that an
    unhandled exception turns into. */
module Http {

  datatype HttpError = HttpError(status: int, detail: string)

  /** What the framework answers when a handler lets a non-HTTP exception escape. */
  const InternalServerError := HttpError(500, "Internal Server Error")
}
