/** Result types shared by every module: the source reports failures by throwing,
    the model returns them as values. */
module Wrappers {

  datatype Option<+T> = None | Some(value: T)

  /** The exception kinds the source throws, with the message where it matters. */
  datatype Error =
    | InvalidOperation(message: string)
    | Argument(message: string)
    | ArgumentOutOfRange(message: string)
    | IndexOutOfRange
    | DivideByZero

  datatype Result<+T> = Success(value: T) | Failure(error: Error)
}
