/** Option and Result wrappers shared by every module of the model.
  * `None` stands for a .NET `null` (or for `default(T)` where the source returns it),
  * and `Err` for an exception the source throws. */
module Wrappers {

  datatype Option<T> = None | Some(value: T)
  {
    function UnwrapOr(default: T): T
    {
      match this
      case None => default
      case Some(v) => v
    }
  }

  /** The .NET exceptions the modelled code can throw. */
  datatype Failure =
    | ArgumentNull
    | ArgumentOutOfRange
    | InvalidArgument
    | IndexOutOfRange
    | KeyNotFound
    | NullReference
    | BadFormat
    | DivideByZero
    | Overflow

  datatype Result<T> = Ok(value: T) | Err(error: Failure)
  {
    predicate IsFailure()
    {
      Err?
    }

    function PropagateFailure<U>(): Result<U>
      requires Err?
    {
      Err(error)
    }

    function Extract(): T
      requires Ok?
    {
      value
    }
  }
}
