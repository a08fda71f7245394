/** Option and Result, the two failure-carrying datatypes the model returns. */
module Wrappers {

  datatype Option<+T> = None | Some(value: T)

  /** Ok carries the value a handler computed; Err the condition it reports instead. */
  datatype Result<+T, +E> = Ok(value: T) | Err(error: E) {

    predicate IsFailure() {
      Err?
    }

    function PropagateFailure<U>(): Result<U, E>
      requires Err?
    {
      Err(error)
    }

    function Extract(): T
      requires Ok?
    {
      value
    }
  }
}
