/** Failure-compatible results shared by every module of the model. */
module Wrappers {

  /** A value, or None where the program returns null or throws; Option<()> for a bare statement. */
  datatype Option<+T> = None | Some(value: T) {
    predicate IsFailure() {
      None?
    }

    function PropagateFailure<U>(): Option<U>
      requires None?
    {
      None
    }

    function Extract(): T
      requires Some?
    {
      value
    }
  }
}
