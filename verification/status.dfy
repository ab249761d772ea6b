/** Failure kinds and result wrappers of the storage engine.
    The Java code signals every failure by throwing an `Exception` whose message
    names the cause; here each cause is one constructor of `Error`. */
module Status {

  /** Why an operation failed. */
  datatype Error =
    | FilenameTooLong     // createFile: name longer than 11 characters
    | FileAlreadyExists   // createFile: a live entry already has the name
    | MaxFilesReached     // createFile: every entry slot is taken
    | FileNotFound        // readFile, writeFile, deleteFile: no entry has the name
    | InsufficientSpace   // writeFile: fewer free blocks than the content needs
    | IOFailure           // the backing file could not be sized

  /** A slot that may be empty (a Java `null`). */
  datatype Option<+T> = None | Some(value: T)

  /** A value, or the reason there is none. */
  datatype Result<+T> = Success(value: T) | Failure(error: Error)

  /** The outcome of a mutating operation that returns nothing on success. */
  datatype Outcome = Done | Failed(error: Error)
}
