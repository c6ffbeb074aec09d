/** Failure-compatible result types shared by the modules of this project. */
module Wrappers {
  datatype Option<+T> = None | Some(value: T)

  /** Ok carries the outcome; Fault stands for a failed assertion or a touched dead object. */
  datatype Checked<+T> = Ok(value: T) | Fault {
    predicate IsFailure() {
      Fault?
    }

    function PropagateFailure<U>(): Checked<U>
      requires Fault?
    {
      Fault
    }

    function Extract(): T
      requires Ok?
    {
      value
    }
  }
}
