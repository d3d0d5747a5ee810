/** Identifiers, timestamps and the failure values shared by every layer. */
module Common {

  /** A row identifier (a Java `Long`); the store hands out 1, 2, 3, ... per table. */
  type Id = int

  /** A creation timestamp; `LocalDateTime.now()` becomes a caller-supplied value. */
  type Time = nat

  datatype Option<T> = None | Some(value: T)

  /** The three entity kinds, as `ResourceNotFoundException` names them. */
  datatype Kind = UserKind | SessionKind | PhotoKind

  /** Exceptions the core raises. */
  datatype Failure =
    | NotFound(kind: Kind, id: Id)                // ResourceNotFoundException(kind, "id", id)
    | ValueTooLong(column: string, limit: nat)    // the database rejects an over-long column value
    | IndexOutOfBounds(index: int, length: nat)   // ArrayIndexOutOfBoundsException

  datatype Result<T> = Ok(value: T) | Err(failure: Failure)

  /** The outcome of an operation that returns nothing (`void`) but may throw. */
  datatype Outcome = Done | Fail(failure: Failure)
}
