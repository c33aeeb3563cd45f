/** Failure-carrying results for the group codec. Each error kind stands for one exception the
    original codec raises on the paths modelled here. */
module Errors {

  /** The exceptions of the modelled paths. */
  datatype Error =
    | InvalidGroupHeader     // C4GroupError("Invalid group header"): header read is not 204 bytes
    | TruncatedRecord        // struct.error: an entry record holds fewer than 257 name bytes
    | InvalidContentPosition // C4GroupError("Invalid content position!"): no content position
    | ShortContent           // struct.error: the stream ends before `size` content bytes
    | FileTooShort           // IndexError: fewer than two bytes to patch with the gzip magic
    | PackOutOfRange         // struct.error: a value does not fit a signed 32-bit field
    | NotAnInteger           // struct.error: a float handed to an integer format

  /** Either a value or the error that aborted the operation; usable with `:-`. */
  datatype Result<+T> = Ok(value: T) | Err(error: Error) {

    predicate IsFailure() {
      Err?
    }

    function PropagateFailure<U>(): Result<U>
      requires Err?
    {
      Err(error)
    }

    function Extract(): T
      requires Ok?
    {
      value
    }
  }

  /** Python's `None` or a value. */
  datatype Option<+T> = None | Some(value: T)
}
