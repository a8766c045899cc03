/**
  How a call of the repository layer ends. A JavaScript function in this layer
  either throws before it hands back a promise, or hands back a promise that
  later resolves or rejects; every error carries a message string.
 */
module Outcomes {

  datatype Option<+T> = None | Some(value: T)

  /** `Throws` is a synchronous exception; `Rejects` a rejected promise. */
  datatype Outcome<+T> = Resolves(value: T) | Rejects(reason: string) | Throws(reason: string)

  /** One atomic step of a stateful collaborator: the state it leaves behind
      and how the call ended. */
  datatype Step<S, +T> = Step(state: S, out: Outcome<T>)

  /** What a caller observes of a call made inside a `then` callback: an
      exception thrown there rejects the derived promise with the same
      message, and anything else passes through. */
  function Settle<T>(o: Outcome<T>): (r: Outcome<T>)
    ensures !r.Throws?
    ensures r.Resolves? <==> o.Resolves?
    ensures o.Resolves? ==> r == o
    ensures !o.Resolves? ==> r == Rejects(o.reason)
  {
    if o.Throws? then Rejects(o.reason) else o
  }

  /** A failure carried over unchanged to a call with another result type. */
  function Forward<U, T>(o: Outcome<U>): (r: Outcome<T>)
    requires !o.Resolves?
    ensures r.Rejects? == o.Rejects? && r.Throws? == o.Throws? && r.reason == o.reason
  {
    if o.Rejects? then Rejects(o.reason) else Throws(o.reason)
  }

  /** `String(new Error(message))`, the text an error contributes to `+`. */
  function ErrorString(message: string): string {
    "Error: " + message
  }
}
