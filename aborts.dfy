/** The server reports every failed guard by aborting the request with an
    HTTP status and a message. Here an abort is a value. */
module Aborts {

  const BadRequest := 400
  const Unauthorized := 401
  const NotFound := 404

  /** The outcome of one server operation: its value, or the abort it raised. */
  datatype Result<T> = Ok(value: T) | Abort(code: int, message: string) {

    /** The same outcome with the value replaced by `v`; an abort is kept as it is. */
    function Replace<U>(v: U): (r: Result<U>) {
      match this
      case Ok(_) => Ok(v)
      case Abort(c, m) => Abort(c, m)
    }

    /** The value on success, `otherwise` on an abort. */
    function GetOr(otherwise: T): (v: T) {
      match this
      case Ok(v) => v
      case Abort(_, _) => otherwise
    }

    /** Both succeeded, or both aborted with the same status and message. */
    predicate SameStatus<U>(other: Result<U>) {
      match this
      case Ok(_) => other.Ok?
      case Abort(c, m) => other == Abort(c, m)
    }
  }
}
