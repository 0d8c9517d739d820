/** Outcome datatypes shared by the decoder model. Errors carry no message:
    the model only records that decoding failed. */
module Wrappers {

  datatype Option<+T> = None | Some(value: T)

  /** A decoding outcome: a value, or a decode error. */
  datatype Result<+T> = Ok(value: T) | Err {
    predicate IsFailure() { Err? }

    function PropagateFailure<U>(): Result<U>
      requires Err?
    {
      Err
    }

    function Extract(): T
      requires Ok?
    {
      value
    }
  }
}
