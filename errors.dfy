/**
 * Result wrappers and the exceptions of the library, as values.
 *
 * Every operation that raises in the Ruby code returns a `Result` or an
 * `Outcome` here; the `Error` constructors name the exception classes.
 */
module Errors {

  datatype Option<+T> = None | Some(value: T)

  /** A value, or the exception that the operation raised instead. */
  datatype Result<+T> = Success(value: T) | Failure(error: Error)

  /** An operation run for its effects only: it passes, or raises. */
  datatype Outcome = Pass | Fail(error: Error)

  datatype Error =
    /** `GitLocal::Repository::NotFound`, carrying the subprocess output joined by spaces */
    | RepositoryNotFound(message: string)
    /** `GitLocal::Repository::InvalidArgument` */
    | InvalidArgument
    /** `GitLocal::Object::NotFound` */
    | ObjectNotFound
    /** an `Errno::*` raised by `File.read` for `path` and not rescued */
    | SystemCallError(path: string)
}
