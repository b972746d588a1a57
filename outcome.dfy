/** How an operation of the aligner's tool chain ends. */
module Outcome {

  /** Why an operation did not produce a value. */
  datatype Failure =
    /** The program prints a diagnostic and exits. */
    | Fatal(message: string)
    /** The C++ behaviour is undefined: an out-of-range access or an empty container dereferenced. */
    | Undefined(reason: string)

  datatype Option<T> = None | Some(value: T)

  datatype Result<T> = Ok(value: T) | Err(failure: Failure)
  {
    predicate IsFailure() { Err? }

    function PropagateFailure<U>(): Result<U>
      requires Err?
    {
      Err(failure)
    }

    function Extract(): T
      requires Ok?
    {
      value
    }
  }
}
