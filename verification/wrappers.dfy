/** Wrappers shared by the tree and the record store:
    `Option` stands for a Java reference that may be null, `Result` for a
    constructor that may throw. */
module Wrappers {

  datatype Option<+T> = None | Some(value: T)

  datatype Result<+R, +E> = Success(value: R) | Failure(error: E)
}
