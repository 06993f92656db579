/** Failure-compatible option type and the result of a positional decoder. */
module Options {

  datatype Option<+T> = None | Some(value: T) {
    predicate IsFailure() { None? }

    function PropagateFailure<U>(): Option<U>
      requires None?
    {
      None
    }

    function Extract(): T
      requires Some?
    {
      value
    }
  }

  /** A value decoded from a byte sequence and the cursor position just after it. */
  datatype Parsed<+T> = Parsed(value: T, next: nat)
}
