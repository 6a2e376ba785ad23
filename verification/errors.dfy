/** The HTTP exceptions the services throw, and the `catch` blocks that rewrap them. */
module Errors {

  /** The NestJS exception classes the services use; each carries its message. */
  datatype Exception =
    | NotFound(message: string)
    | Forbidden(message: string)
    | Conflict(message: string)
    | Unauthorized(message: string)
    | InternalServerError(message: string)
      /** What the database client throws when a write breaks a constraint of the schema. */
    | DatabaseError(message: string)

  /** What an `async` service method settles to: a value, or a thrown exception. */
  datatype Result<+T> = Ok(value: T) | Err(error: Exception)

  /** A `catch (error)` block that logs and throws `InternalServerErrorException(message)`
      whatever was caught. */
  function CatchAll<T>(r: Result<T>, message: string): (r': Result<T>)
    ensures r'.Ok? <==> r.Ok?
    ensures r.Ok? ==> r' == r
    ensures r'.Err? ==> r'.error == InternalServerError(message)
  {
    match r
    case Ok(_) => r
    case Err(_) => Err(InternalServerError(message))
  }

  /** A `catch (error)` block that rethrows the exceptions `keep` selects unchanged and
      rewraps every other one as `InternalServerErrorException(message)`. */
  function CatchAllExcept<T>(r: Result<T>, keep: Exception -> bool, message: string): (r': Result<T>)
    ensures r'.Ok? <==> r.Ok?
    ensures r.Ok? ==> r' == r
    ensures r.Err? && keep(r.error) ==> r' == r
    ensures r.Err? && !keep(r.error) ==> r'.error == InternalServerError(message)
  {
    match r
    case Ok(_) => r
    case Err(e) => if keep(e) then r else Err(InternalServerError(message))
  }
}
