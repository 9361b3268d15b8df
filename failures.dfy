/** Outcomes of the service's operations: a value, or the exception that ends the operation. */
module Failures {

  /** The exceptions the service's operations can end with, named after what raises them. */
  datatype Error =
    | InvalidBase64          // FormatException from Convert.FromBase64String
    | UnsupportedAlgorithm   // ArgumentException("Unsupported algorithm")
    | InvalidMode            // ArgumentException("Invalid mode")
    | InvalidPath            // ArgumentException from FileStream: the path is empty
    | FileNotFound           // FileNotFoundException when the input is opened
    | FileInUse              // IOException: the output path is already open for reading
    | EndOfStream            // EndOfStreamException from ReadExactly
    | Cryptographic          // CryptographicException from the decryptor (bad padding)

  datatype Result<+T> = Ok(value: T) | Err(error: Error) {
    predicate IsFailure() { Err? }

    function PropagateFailure<U>(): Result<U>
      requires Err?
    {
      Err(error)
    }

    function Extract(): T
      requires Ok?
    {
      value
    }
  }

  datatype Option<+T> = None | Some(value: T)
}
