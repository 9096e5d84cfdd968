/** The exceptions the transformer can raise while building its SQL text,
    and the Option/Result wrappers the rest of the model returns them in. */
module Failures {

  /** Python's None or a present value. */
  datatype Option<+T> = None | Some(value: T)

  /** What goes wrong, one constructor per exception the script can raise
      on the modelled paths. */
  datatype Error =
    | UnknownField(name: string)  // KeyError: a placeholder names no column of the row
    | UnknownType(tag: string)    // KeyError: a configured type has no SQL column type
    | NoStrftime                  // AttributeError: a DATE field's value has no strftime
    | NotAString                  // TypeError: join over a literal that is None
    | EvalFailure(reason: string) // whatever eval raises on the substituted text

  /** A computed value or the exception that stopped the computation. */
  datatype Result<+T> = Ok(value: T) | Err(error: Error) {
    predicate IsFailure() { Err? }

    function PropagateFailure<U>(): Result<U>
      requires Err?
    {
      Err(error)
    }

    function Extract(): T
      requires Ok?
    {
      value
    }
  }
}
