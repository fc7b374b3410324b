/** What a call can end in: a value, a C++ exception, or behaviour that C++ does not define. */
module Outcomes {

  datatype Option<+T> = None | Some(value: T)

  datatype Failure = InvalidArgument | OverflowError | RuntimeError

  datatype Outcome<+T> = Ok(value: T) | Throws(failure: Failure) | Undefined {
    predicate IsFailure() {
      !Ok?
    }

    function PropagateFailure<U>(): Outcome<U>
      requires IsFailure()
    {
      match this
      case Throws(f) => Throws(f)
      case Undefined => Undefined
    }

    function Extract(): T
      requires !IsFailure()
    {
      value
    }
  }
}
