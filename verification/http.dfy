/** What a controller action returns, reduced to the status it sets and the
    body it carries. */
module Http {
  import opened Wrappers

  /** An exception that escapes an action; the framework answers 500. */
  datatype Fault =
    | NullReference      // `FindFirst(...)!.Value` on a missing claim
    | FormatException    // `int.Parse` on a text that is not an integer
    | OverflowException  // `int.Parse` on an integer outside the 32-bit range

  datatype Response<+T> =
    | Ok(body: T)
    | BadRequest(message: string)
    | Unauthorized(message: string)
    | NotFound(detail: Option<string>)
    | ServerError(fault: Fault)
}
