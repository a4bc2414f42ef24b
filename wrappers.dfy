/** Option and the outcome of a service operation: either a value or the exception the Java code throws. */
module Wrappers {

  datatype Option<+T> = None | Some(value: T)

  /** The exceptions the service lets escape. */
  datatype Failure =
    | AlreadyExists(message: string)   // DirectoryAlreadyExistsException
    | NullDereference                  // NullPointerException on a path that splits into no segments

  datatype Result<+T> = Ok(value: T) | Err(failure: Failure)
}
