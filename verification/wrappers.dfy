/** Shared value, failure and patch datatypes used by every handler of the
    learning-content backend. */
module Wrappers {

  /** Integer primary key of a stored row. */
  type Id = int

  datatype Option<+T> = None | Some(value: T) {
    function GetOr(default: T): T {
      match this
      case Some(v) => v
      case None => default
    }
  }

  /** The HTTP failures a handler raises. The backend reports a duplicate
      title or name as 400 Bad Request, not as 409. `ServerError` stands for
      an uncaught Python exception (ZeroDivisionError, TypeError, ...), which
      the web framework turns into a 500 without committing anything. */
  datatype Error = NotFound | BadRequest | ServerError {
    function Status(): (code: int)
      ensures 400 <= code < 600
    {
      match this
      case NotFound => 404
      case BadRequest => 400
      case ServerError => 500
    }
  }

  datatype Result<+T> = Ok(value: T) | Err(error: Error)

  /** One field of a partial-update request body: `Keep` when the client did
      not send the field (pydantic's `exclude_unset`), `Put(v)` when it did. */
  datatype Patch<+T> = Keep | Put(value: T) {
    function Apply(current: T): T {
      match this
      case Keep => current
      case Put(v) => v
    }
  }

  /** A JSON scalar as it arrives in a request body: the model keeps integers
      and strings, the two kinds the quiz and metadata code compare. */
  datatype Value = VInt(i: int) | VStr(s: string)
}
