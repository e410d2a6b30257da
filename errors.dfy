/** The outcomes of the codec's operations: Rust's `io::Result` plus the panics the code can reach. */
module Errors {

  datatype Option<+T> = None | Some(value: T)

  /** Why the Rust code would panic instead of returning. */
  datatype PanicReason =
    | IndexOutOfBounds  // a `Vec` index past its end (`dictionary[prev_code]`, `entry[0]`)
    | ShiftOverflow     // `1 << n` on a `u16` with `n >= 16`

  datatype Error =
    | UnexpectedEof                    // `read_exact` found too few bytes
    | InvalidGraphicsControlBlockSize  // graphics control block size byte other than 4
    | InvalidApplicationBlockSize      // application extension block size byte other than 11
    | InvalidImageSeparator            // image descriptor not starting with 0x2C
    | InvalidLzwCode                   // a code not in the table with no previous code
    | InvalidGifFormat                 // a block indicator that is not 0x21, 0x2C or 0x3B
    | Panic(reason: PanicReason)

  datatype Result<+T> = Ok(value: T) | Err(error: Error) {
    predicate IsFailure() {
      Err?
    }

    function PropagateFailure<U>(): Result<U>
      requires Err?
    {
      Err(error)
    }

    function Extract(): T
      requires Ok?
    {
      value
    }
  }

  /** A value read from the input together with the cursor position just after it. */
  datatype Parsed<+T> = Parsed(value: T, next: nat)
}
