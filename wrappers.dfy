/** Option and Result values that stand for Java's nullable returns and thrown exceptions. */
module Wrappers {

  datatype Option<+T> = None | Some(value: T) {
    function GetOr(default: T): T {
      match this
      case Some(v) => v
      case None => default
    }
  }

  /** The exception kinds the services throw.  SecurityError is `SecurityException`
      (bad credentials, not the author, self-follow, liking one's own review);
      IllegalArgument is `IllegalArgumentException` (bad page or size, bad rating or
      duration, a missing entity, a recipe mismatch); IntegrityViolation is the
      data-access exception the database raises when a statement breaks a primary key
      or a check constraint, after which the transaction is rolled back; QueryRejected
      is the data-access exception raised when PostgreSQL refuses a query outright, as
      it does for a negative `OFFSET`. */
  datatype Error = SecurityError | IllegalArgument | IntegrityViolation | QueryRejected

  datatype Result<+T> = Ok(value: T) | Err(error: Error)
}
