/** The result every server action returns to the page that called it. */
module Types {

  /** `{ success, message }`; every action of the model sets a message. */
  datatype ActionResult = ActionResult(success: bool, message: string)

  function Failed(message: string): ActionResult {
    ActionResult(false, message)
  }

  function Succeeded(message: string): ActionResult {
    ActionResult(true, message)
  }

  /** What an external call may throw: an `Error` object with its message, or some other value. */
  datatype Thrown = ErrorObject(message: string) | NonError

  /** The message a `catch (error)` block reports: `error.message` for an Error, else the action's fallback text. */
  function CaughtMessage(thrown: Thrown, fallback: string): string {
    match thrown
    case ErrorObject(m) => m
    case NonError => fallback
  }
}
