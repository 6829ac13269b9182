/** Result types shared by the models. */
module Prelude {

  datatype Option<+T> = None | Some(value: T)

  /** The `code` the source attaches to what it throws. */
  datatype Code =
    | TypeError | ApprovalExpired | ApprovalRequired | ApprovalResolved | AttenuationViolation
    | BadIntent | BadRequest | BlueprintRevoked | BudgetExceeded | DelegationNotAuthorized
    | DepthExceeded | Forbidden | IntentExpired | IntentMismatch | KeyExpired
    | KeyRevoked | NotFound | OrgLocked | OrgUnknown | PassportExpired
    | PassportInvalid | PassportParentInvalid | PassportQuarantined | PassportRevoked | PassportSuspended
    | PassportUnknown | Replay | ScopeInsufficient | SigInvalid | TokenExpired
    | TokenMalformed | TokenMismatch | TokenRevoked | TokenUnknown | Unauthorized
    | UnknownKid | CustodyForbidden

  datatype Result<+T> = Ok(value: T) | Err(code: Code) {
    predicate IsFailure() { Err? }

    function PropagateFailure<U>(): Result<U>
      requires Err?
    {
      Err(code)
    }

    function Extract(): T
      requires Ok?
    {
      value
    }
  }

  /** A guard: `if (!condition) throw code`. */
  datatype Guard = Pass | Throw(code: Code) {
    predicate IsFailure() { Throw? }

    function PropagateFailure<U>(): Result<U>
      requires Throw?
    {
      Err(code)
    }
  }

  function Need(condition: bool, code: Code): Guard {
    if condition then Pass else Throw(code)
  }

  /** Passes when the result is a success, rethrows otherwise. */
  function Succeeds<T>(r: Result<T>): Guard {
    match r case Ok(_) => Pass case Err(code) => Throw(code)
  }
}
