/** Option and the success-or-error answer every fallible operation returns. */
module Results {

  /** A value that may be absent (the source's `T | null` / `T | undefined`). */
  datatype Option<+T> = None | Some(value: T)

  /** Why an operation failed. The source throws `Error`s; each cause gets a constructor. */
  datatype Error =
    | Unimplemented         // a FilesystemFile method the backend does not override
    | ReadOnly              // a read-only local file asked to change
    | AlreadyExists         // create-only write, or a non-forced upload, onto an existing path
    | NotConfirmed          // overwrite of a remote file no listing has confirmed
    | NotInCollection       // bulk delete of a file the collection does not hold
    | DryRunEnabled         // run() on a plan whose dry-run flag is set
    | External(reason: string)  // whatever the disk or the network reported

  /** Success with a value, or the error that stopped the operation. */
  datatype Answer<+T> = Ok(value: T) | Err(error: Error)

  /** An answer that carries no value. */
  type Status = Answer<()>

  const Done: Status := Ok(())
}
