/** The outcome of a request handler, one constructor per response the
    controllers produce, plus `Crash` for an exception that escapes the
    handler (the framework answers those with a server error). */
module Http {

  datatype Response<+T> =
    | Ok(value: T)
    | Created(value: T)
    | NoContent
    | BadRequest(errors: seq<string>)
    | Unauthorized
    | Forbidden
    | NotFound
    | Conflict(message: string)
    | Crash(exception: string)

  const NullReference := "NullReferenceException"
  const InvalidOperation := "InvalidOperationException"
}
