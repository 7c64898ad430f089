/** Failure-compatible result type for the automation script. Every failure in
    the script is a JavaScript `Error` whose only observable part is its message,
    so the error side of a result is a plain string. */
module Outcomes {

  /** A value that may be JavaScript's `undefined`. */
  datatype Option<+T> = None | Some(value: T)

  /** A value, or an error carrying its message text. */
  datatype Result<+T> = Ok(value: T) | Err(error: string) {

    predicate IsFailure() {
      Err?
    }

    function PropagateFailure<U>(): Result<U>
      requires Err?
    {
      Err(error)
    }

    function Extract(): T
      requires Ok?
    {
      value
    }
  }

  /** Succeeds when `condition` holds, and fails with `error` otherwise. */
  function Need(condition: bool, error: string): (r: Result<()>)
    ensures r.Ok? <==> condition
    ensures r.Err? ==> r.error == error
  {
    if condition then Ok(()) else Err(error)
  }
}
