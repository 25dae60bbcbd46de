/** Optional values and failing results, used for rows that may be absent and
    for inserts that the database aborts. */
module Results {

  /** A value that may be absent, as a nullable return of the DAO. */
  datatype Option<+T> = None | Some(value: T)

  /** Why a write was refused by the database. */
  datatype Error =
    /** A primary-key conflict: SQLite raises a constraint error and the
        default ABORT conflict strategy of an insert rolls the statement back. */
    | ConstraintViolation

  /** The outcome of a write that can be refused. */
  datatype Result<+T> = Ok(value: T) | Err(error: Error)
}
