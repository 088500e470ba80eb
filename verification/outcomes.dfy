/** Failure-carrying values shared by the index and table models.

    The store panics where a lookup fails (`unwrap`, `expect`, slice
    indexing); the model turns each panic site into an `Err` with a kind
    naming it, so that the failing inputs can be characterised exactly. */
module Outcomes {

  datatype Option<+T> = None | Some(value: T)

  /** The three panic sites of the table operations. */
  datatype Error =
    | ColumnNotFound   // no column carries the requested name
    | MissingField     // some row has no field at the resolved column position
    | RowOutOfRange    // an index entry names a row position the table does not have

  datatype Result<+T> = Ok(value: T) | Err(error: Error)
}
