/** Failure-carrying results for the fingertip locator.

    The only failure the locator can meet is the one the .NET runtime raises
    when `Enumerable.Min` is applied to an empty sequence: the model returns
    it as a value instead of throwing. */
module Outcomes {

  /** The exception the locator can raise. */
  datatype Fault =
    /** `Min()` over a sequence with no elements (an `InvalidOperationException`). */
    | EmptySequence

  datatype Result<+T> = Ok(value: T) | Err(fault: Fault) {

    predicate IsFailure() {
      Err?
    }

    function PropagateFailure<U>(): Result<U>
      requires Err?
    {
      Err(fault)
    }

    function Extract(): T
      requires Ok?
    {
      value
    }
  }
}
