/** Failure-carrying datatypes shared by the model. */
module Wrappers {

  /** A value that may be absent; an empty text field of the form reads as `None`. */
  datatype Option<+T> = None | Some(value: T)

  /** The outcome of an operation that can raise: a value or the error it raised. */
  datatype Result<+R, +E> = Success(value: R) | Failure(error: E)
}

/** The exceptions the widget's computations can raise. */
module Errors {

  datatype Error =
    /** The engine has no contract for the symbol, so reading its option type fails. */
    | ContractNotFound(symbol: string)
    /** The engine has a contract but no tick for the symbol, so reading the last price fails. */
    | TickNotFound(symbol: string)
    /** `range` was given a step of zero. */
    | ZeroRangeStep
}
