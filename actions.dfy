/**
 * The prelude every content action runs before it touches a table:
 * `requireAdmin()` first (its error becomes the failure message through the
 * action's `catch`), then the action's required-field check.
 */
module Actions {
  import opened Auth
  import opened Types
  import opened Wrappers

  /** The failure an action reports when `requireAdmin` throws. */
  function AuthFailure(caller: Caller, env: Option<string>): ActionResult
    requires !IsAdmin(caller, env)
  {
    Failed(ErrorMessage(RequireAdmin(caller, env).error))
  }

  /** The result an action reports, given whether its required fields are present. */
  function Outcome(caller: Caller, env: Option<string>, fieldsPresent: bool, missingMessage: string, doneMessage: string): ActionResult {
    if !IsAdmin(caller, env) then AuthFailure(caller, env)
    else if !fieldsPresent then Failed(missingMessage)
    else Succeeded(doneMessage)
  }

  /**
   * The admin check comes first: an unauthorized call reports the
   * authorization error whatever the form holds, and only an admin with
   * complete fields succeeds.
   */
  lemma AdminCheckFirst(caller: Caller, env: Option<string>, present1: bool, present2: bool, missing: string, done: string)
    ensures !IsAdmin(caller, env) ==>
      Outcome(caller, env, present1, missing, done) == Outcome(caller, env, present2, missing, done) == AuthFailure(caller, env)
    ensures Outcome(caller, env, present1, missing, done).success <==> IsAdmin(caller, env) && present1
  {
  }
}
