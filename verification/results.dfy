/** Failure-compatible wrappers shared by every codec of the model.

    The Rust code reports most of its failures by panicking (`expect`,
    `unwrap`, an out-of-range slice, `todo!()`).  The model turns each of
    those into a `Failure` carrying an `Error` that names the cause, so the
    error paths are stated instead of being excluded by preconditions. */
module Results {

  /** Why a decode, an encode or a construction did not produce a value. */
  datatype Error =
    | OutOfRange            // a slice or an index ran past the end of the buffer
    | LabelTooLong          // `Label::new` on more than 255 bytes of content
    | UnknownType(code: bv16)   // `Type::try_from` had no variant for the code
    | UnknownClass(code: bv16)  // `Class::try_from` had no variant for the code
    | Unsupported(code: bv16)   // an RDATA shape the code leaves as `todo!()`
    | DuplicateLayer        // `Packet::add_layer` saw the OSI level already
    | InvalidMac            // `MACAddr::from_str` on text outside the pattern

  datatype Option<+T> = None | Some(value: T)

  datatype Result<+T> = Success(value: T) | Failure(error: Error) {
    predicate IsFailure() {
      Failure?
    }

    function PropagateFailure<U>(): Result<U>
      requires Failure?
    {
      Failure(error)
    }

    function Extract(): T
      requires Success?
    {
      value
    }
  }
}
