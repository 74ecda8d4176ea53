/** The exceptions the core can raise, and a failure-compatible result type for them. */
module Outcomes {

  /** The Python exceptions the modelled code can raise on its own data. */
  datatype Error =
    | IndexError      // a numpy subscript outside the array
    | KeyError        // a record without the name attribute
    | EmptyReduction  // np.amax of an array with no elements (numpy's ValueError)

  datatype Result<+T> = Ok(value: T) | Err(error: Error) {
    predicate IsFailure() { Err? }

    function PropagateFailure<U>(): Result<U>
      requires Err?
    {
      Err(error)
    }

    function Extract(): T
      requires Ok?
    {
      value
    }
  }
}
