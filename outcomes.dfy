/**
 * Option and Result values used for the absent tree hit and for the fatal
 * error paths of the program.
 */
module Outcomes {

  datatype Option<+T> = None | Some(value: T)

  datatype Result<+T, +E> = Success(value: T) | Failure(error: E)
}
