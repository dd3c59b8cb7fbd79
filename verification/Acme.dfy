/** States of ACME resources and the errors of calls to an ACME server. */
module Acme {

  /** Other stands for a status string that is none of the known ones. */
  datatype State = Unset | Pending | Ready | Processing | Valid | Invalid | Expired | Errored | Other(text: string)

  predicate IsFailureState(s: State) { s.Invalid? || s.Expired? || s.Errored? }

  /** Valid is final for challenges, though not for orders. */
  predicate IsFinalState(s: State) { s.Valid? || IsFailureState(s) }

  /** How a call can fail, as far as the controllers tell errors apart. */
  datatype CallError =
    | Malformed          // an ACME error of type "malformed" and a 4xx status
    | Forbidden          // ACME error 403
    | ClientError        // any other ACME error with a 4xx status
    | ServerError        // an ACME error with another status
    | Transient          // a network failure or a cancelled context
    | ProfileUnsupported // the server does not offer the requested profile
    | Unexpected         // any other error
  {
    predicate Is4xx() { Malformed? || Forbidden? || ClientError? }
  }
}
