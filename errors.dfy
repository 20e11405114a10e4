/** The three error kinds of the backend and the result shapes that carry them.
    NotFound and Conflict are the repository sentinels; Validation is the service
    sentinel, here tagged with the reason the failing check reports. */
module Errors {

  /** Why a validation failed: one tag per message the validators and the
      order workflow produce. */
  datatype Problem =
    | UserIdRequired
    | NoItems
    | ProductIdRequired
    | QuantityNotPositive
    | NameRequired
    | PriceNotPositive
    | StockNegative
    | EmailInvalid
    | InsufficientStock(productId: string)

  datatype Error = Validation(problem: Problem) | NotFound | Conflict

  /** A value or the error that replaced it (Go's `(T, error)` pair). */
  datatype Result<T> = Ok(value: T) | Err(error: Error)

  /** An operation that returns only an error (Go's bare `error`). */
  datatype Outcome = Pass | Fail(error: Error)

  datatype Option<T> = None | Some(value: T)
}
