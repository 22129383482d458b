/** Error kinds and the result type shared by every command of the model. */
module Common {

  /** The `io::ErrorKind` (or panic) with which an operation of the utilities fails. */
  datatype ErrorKind =
    | InvalidInput      // malformed arguments, unparseable expression
    | InvalidData       // what `chmod` wraps every failure in, and the `rm` "directory" error
    | NotFound          // a path that does not exist (metadata, copy source, missing parent)
    | AlreadyExists     // `create_dir_all` meeting a file on its way
    | IsADirectory      // `fs::copy` onto an existing directory, `remove_file` on a directory
    | NotADirectory     // a path that goes through a file, `read_dir` on a file
    | NameTooLong       // a path deeper than the operating system admits
    | Panic             // an index out of bounds or an arithmetic overflow aborts the process

  datatype Result<T> = Ok(value: T) | Err(kind: ErrorKind)

  datatype Option<T> = None | Some(value: T)
}
