/** Errors raised by the BlurHash codec and a failure-compatible result type. */
module Results {

  /** The exceptions the codec raises, one constructor per raise site. */
  datatype Error =
    | UnknownSymbol(symbol: char)   // KeyError: a character outside the base-83 alphabet
    | ValueTooLong                  // ValueError: value does not fit in the requested digit count
    | MissingCharacter              // IndexError: the hash has no character at a header position
    | InvalidComponentCount         // ValueError: encoder component count outside [1,9]
    | HashTooShort                  // ValueError: hash shorter than 6 characters
    | HashLengthMismatch            // ValueError: hash length disagrees with its own header

  datatype Result<+T> = Ok(value: T) | Err(error: Error) {
    predicate IsFailure() { Err? }

    function PropagateFailure<U>(): Result<U>
      requires Err?
    {
      Err(error)
    }

    function Extract(): T
      requires Ok?
    {
      value
    }
  }

  datatype Option<+T> = None | Some(value: T)
}
