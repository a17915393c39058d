/** Failure-compatible result of a dictionary lookup that may raise a KeyError. */
module Wrappers {

  /** `Failure` stands for a KeyError raised by a lookup of an absent key;
      which key is named in the error is not tracked. */
  datatype Result<+T> = Success(value: T) | Failure {

    predicate IsFailure() {
      Failure?
    }

    function PropagateFailure<U>(): Result<U>
      requires Failure?
    {
      Failure
    }

    function Extract(): T
      requires Success?
    {
      value
    }
  }
}
