/** Failure-carrying values shared by every module of the model. */
module Wrappers {

  datatype Option<+T> = None | Some(value: T)

  /** The kinds of error the modelled Go code can return. Go wraps errors with
      messages (`fmt.Errorf("...: %w", err)`); the model keeps only the kind. */
  datatype Error =
    | NotExist          // ENOENT: a path that is not there
    | IsADirectory      // EISDIR
    | NotADirectory     // ENOTDIR: a path component is a regular file
    | NotEmpty          // ENOTEMPTY
    | AlreadyExists     // EEXIST
    | PermissionDenied  // the OS refuses this path
    | InvalidArgument   // EINVAL
    | NameTooLong       // ENAMETOOLONG
    | Malformed         // an archive or a document that cannot be decoded
    | Network           // transport failure: no HTTP response at all
    | HttpStatus(code: int) // an HTTP response with an unexpected status
    | ReadBody          // the HTTP response body could not be read
    | SubPath           // destination lies inside the source
    | Prompt            // reading the operator's answer failed
    | Panic             // a Go runtime panic (failed type assertion, nil map)
    | InvalidFormat     // a bookmark URL of an unsupported shape

  datatype Result<+T> = Ok(value: T) | Err(error: Error) {
    predicate IsFailure() { Err? }
    function PropagateFailure<U>(): Result<U>
      requires Err?
    {
      Err(error)
    }
    function Extract(): T
      requires Ok?
    {
      value
    }
  }
}
