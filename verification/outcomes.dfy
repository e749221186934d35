/** Value types shared by the model: an optional value (what an enumerator's
    Current holds) and the outcome of a domain-service operation. The services
    signal their two business-rule failures by throwing
    RequestedResourceNotFoundException and RequestedResourceHasConflictException;
    here those are the two `Failure` values. */
module Outcomes {

  datatype Option<+T> = None | Some(value: T)

  /** The two failures a domain service reports to its caller. */
  datatype Failure = NotFound | Conflict

  /** Either the operation's value or the failure it raised. A failed
      operation carries no new store, so the caller keeps the one it had. */
  datatype Result<+T> = Ok(value: T) | Err(error: Failure)
}
