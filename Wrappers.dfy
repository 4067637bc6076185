/** Result shapes shared by every part of the model. */
module Wrappers {

  /** Go's nullable fields (`*string`, `*uint64`, ...). */
  datatype Option<+T> = None | Some(value: T)

  /** A Go `(value, error)` pair where exactly one half is meaningful. */
  datatype Result<+T, +E> = Ok(value: T) | Err(error: E)

  /** What a pgx row lookup can produce: a row, `pgx.ErrNoRows`, or any other store error. */
  datatype StoreResult<+T> = Row(row: T) | NoRows | StoreFault(message: string)
}
