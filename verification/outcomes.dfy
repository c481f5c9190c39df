/** What an endpoint answers: a status code and, depending on it, a body. */
module Outcomes {

  datatype Outcome<+T> =
    | Ok(body: T)                         // 200 with a representation
    | Created(body: T)                    // 201 with a representation
    | NoContent                           // 204
    | Fail(code: int, message: string)    // an error status with a plain-text body ("" when empty)
  {
    function Status(): int {
      match this
      case Ok(_) => 200
      case Created(_) => 201
      case NoContent => 204
      case Fail(code, _) => code
    }
  }

  /** The status a request gets when the transaction cannot commit. */
  const RolledBack: int := 500
}
