/** Optional values, the error kinds the poll handlers report, and the
    result-or-error type of the handlers that can fail. */
module Outcome {

  /** A value that may be absent: a missing request field, a date string
      the parser rejects. */
  datatype Option<+T> = None | Some(value: T)

  /** The ways a request is rejected. */
  datatype Error =
    | InvalidExpiration  // the resolved expiry is not a valid point in time
    | MissingField       // question or options is null; the store refuses the row
    | NotFound           // no poll with the requested id
    | Expired            // a vote against a poll that no longer accepts votes
    | EmptyText          // a comment whose text is absent or blank

  /** Either the operation's value or the reason it was rejected.  A
      rejected operation carries no new store, so it mutates nothing. */
  datatype Result<+T> = Ok(value: T) | Err(error: Error)
}
