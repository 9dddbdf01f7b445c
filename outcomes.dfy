/** Shared result shapes of the clinic backend: optional values, calls that may
    raise an exception, HTTP-style replies of the controllers, and the token
    authority the services consult. */
module Outcomes {

  datatype Option<+T> = None | Some(value: T)

  /** The outcome of a Java call that may raise an uncaught exception
      (an `Optional.get` on an empty value, a null dereference,
      a `NumberFormatException`, an ambiguous single-result query). */
  datatype Try<+T> = Returns(value: T) | Throws

  /** The HTTP statuses the controllers and services answer with. */
  datatype Status = Ok | Created | BadRequest | Unauthorized | NotFound | Conflict | InternalServerError

  /** A controller or service reply: a success status with its payload, an
      error status (whose message text is not modelled), or an uncaught
      exception that escapes the handler. */
  datatype Reply<+T> = Success(status: Status, body: T) | Failure(status: Status) | Thrown

  /** The token library: `validate(token, role)` says whether the token is a
      live token of that role, `extractIdentifier` recovers its subject (or
      raises on a token it cannot parse), `generate` mints a token for a
      subject. Signing and expiry are not modelled. */
  datatype TokenService = TokenService(
    validate: (string, string) -> bool,
    extractIdentifier: string -> Option<string>,
    generate: string -> string)
}
