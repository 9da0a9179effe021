/** Failure-compatible result types for the registry's service calls.

    Every service operation either throws one of three exception kinds
    (NotFoundException, NotAuthorizedException, BadInputException) or
    completes. Since the services are transactional, a call that throws
    leaves the store as it found it; here that is structural: a `Fail`
    carries an error kind and no state.
 */
module Outcomes {

  /** An optional value, standing for a nullable reference or a `java.util.Optional`. */
  datatype Option<+T> = None | Some(value: T)

  /** The three exception kinds the services raise. */
  datatype Error = NotFound | NotAuthorized | BadInput

  /** Either the value a call returns or the kind of exception it throws. */
  datatype Result<+T> = Ok(value: T) | Fail(error: Error) {

    predicate IsFailure() {
      Fail?
    }

    function PropagateFailure<U>(): Result<U>
      requires Fail?
    {
      Fail(error)
    }

    function Extract(): T
      requires Ok?
    {
      value
    }
  }

  /** The outcome of one guard check: it lets the call continue or throws. */
  datatype Guard = Pass | Refuse(error: Error) {

    predicate IsFailure() {
      Refuse?
    }

    function PropagateFailure<U>(): Result<U>
      requires Refuse?
    {
      Fail(error)
    }
  }

  /** A guard that throws `error` unless `condition` holds. */
  function Require(condition: bool, error: Error): (g: Guard)
    ensures g.Pass? <==> condition
    ensures g.Refuse? ==> g.error == error
  {
    if condition then Pass else Refuse(error)
  }
}
