/** The one failure-compatible type the models return where the source returns
    an error: every refusal in graphops wraps the same ErrValidation, so the
    message text is not modelled. */
module Wrappers {
  datatype Option<+T> = None | Some(value: T)
  {
    predicate IsFailure() { None? }

    function PropagateFailure<U>(): Option<U>
      requires None?
    {
      None
    }

    function Extract(): T
      requires Some?
    {
      value
    }
  }
}
