/** The failures a decode can end in, one per distinct Java exception the decoder
    and its collaborators throw, and the Result type that carries them. */
module Errors {

  datatype Error =
    /** PatchException: the first three bytes are not D6 C3 C4. */
    | NotVcdiff
    /** PatchException: a header indicator with any of bits 3-7 set. */
    | BadHeaderIndicator
    /** PatchException: the window wants the dictionary but none was supplied. */
    | SourceRequired
    /** PatchException: a window indicator whose source mode is neither 0, 1 nor 2. */
    | BadWindowIndicator
    /** PatchException: the decoded custom code table is not 1536 bytes long. */
    | BadTableSize
    /** UnsupportedOperationException: a version byte other than 0. */
    | UnsupportedVersion
    /** UnsupportedOperationException: header indicator bit 0 (secondary compression). */
    | UnsupportedSecondaryCompression
    /** UnsupportedOperationException: a nonzero delta indicator. */
    | UnsupportedDeltaCompression
    /** UnsupportedOperationException: a write to a store opened read-only. */
    | ReadOnlyStore
    /** IOException: five varint bytes that all carry the continuation bit. */
    | InvalidVarint
    /** IllegalArgumentException: a bad type byte, too short an array for an int or
        a short, or a buffer limit or position out of range. */
    | IllegalArgument
    /** RuntimeException: an address mode beyond the near and same modes. */
    | BadAddressMode
    /** Every failure that is a bound being overstepped: end of stream, an array index or
        length out of range (IndexOutOfBounds, ArrayIndexOutOfBounds, NegativeArraySize),
        a buffer under- or overflow, and a seek outside the store (IOException). */
    | Bounds

  datatype Result<+T> = Ok(value: T) | Err(error: Error) {
    predicate IsFailure() { Err? }

    function PropagateFailure<U>(): Result<U>
      requires Err?
    {
      Err(error)
    }

    function Extract(): T
      requires Ok?
    {
      value
    }
  }

  datatype Option<+T> = None | Some(value: T)

  /** The outcome of an operation that returns nothing but may fail. */
  datatype Outcome = Pass | Fail(error: Error) {
    predicate IsFailure() { Fail? }

    function PropagateFailure<U>(): Result<U>
      requires Fail?
    {
      Err(error)
    }
  }
}
