/** Failure-carrying results shared by every module. */
module Wrappers {

  datatype Option<+T> = None | Some(value: T)

  /** The exceptions of the two programs, one constructor for each way an operation can stop. */
  datatype Error =
    | TooShort | NegativeNum | BadUsername | BadHeader | NoSuchType
    | BadKey | BadChallenge | InvalidError | MsgLength | AsymmetricKey
    | ReceiveFailed       // the socket reported an error
    | Undefined           // C++ gives the statement no meaning for these operands
    | BadField            // a Java constructor refused a field
    | IllegalArgument     // javax.crypto refused an offset or a length

  datatype Result<+T> = Ok(value: T) | Err(error: Error) {
    predicate IsFailure() {
      Err?
    }

    function PropagateFailure<U>(): Result<U>
      requires Err?
    {
      Err(error)
    }

    function Extract(): T
      requires Ok?
    {
      value
    }
  }

  datatype Check = Pass | Fail(error: Error) {
    predicate IsFailure() {
      Fail?
    }

    function PropagateFailure<U>(): Result<U>
      requires Fail?
    {
      Err(error)
    }
  }

  function Need(condition: bool, error: Error): Check {
    if condition then Pass else Fail(error)
  }
}
