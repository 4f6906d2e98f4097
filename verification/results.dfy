/** Shared value types: bytes, Go-style error values, and the Option/Result
    wrappers that stand in for Go's `(value, error)` returns and for `nil`. */
module Results {

  newtype byte = x: int | 0 <= x < 256

  type Bytes = seq<byte>

  /** The error values the modelled code can produce or pass through. */
  datatype Error =
    | Failure(message: string)     // errors.New / fmt.Errorf, or an error handed over by a collaborator
    | InvalidDigits(input: string) // a digit string that is not valid in the source base
    | NotExist(path: string)       // an os error for which os.IsNotExist holds
    | IoFault(path: string)        // any other os error
    | Panic(message: string)       // a Go panic: the process does not continue normally

  datatype Option<+T> = None | Some(value: T)

  datatype Result<+T> = Ok(value: T) | Err(error: Error)
}
