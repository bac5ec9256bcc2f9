/** Failure-carrying values for the rope's fatal paths and its optional arguments. */
module Results {

  /** An optional argument (`end` of substring, `length` of substr). */
  datatype Option<+T> = None | Some(value: T)

  /** The reasons the rope aborts an operation. */
  datatype Panic =
    | PositionOutOfBounds   // insert: position past the end
    | StartOutOfBounds      // remove: start past the end
    | EndOutOfBounds        // remove: end past the end
    | StartAfterEnd         // remove: start greater than end
    | InvertedSlice         // substring: a leaf is sliced with start greater than end
    | InvalidPosition       // char_code_at: the one-unit slice is empty

  /** The outcome of an operation that may abort. */
  datatype Result<+T> = Ok(value: T) | Err(panic: Panic)
}
