/** The HTTP exceptions the services and guards throw, each with its message. A call that
    throws is modelled as a `Result` whose error is one of these. */
module Exceptions {

  datatype HttpException =
    | BadRequest(message: string)
    | Unauthorized(message: string)
    | Forbidden(message: string)
    | NotFound(message: string)
    | Conflict(message: string)
      /** The database refusing a write that breaks the unique constraint on `email`. */
    | UniqueViolation
}
