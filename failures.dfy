/** The ways a pass over an MPS7 log can end without a report. */
module Failures {
  import opened ByteOrder

  datatype LogError =
    | BadMagic              // the first four bytes are not "MPS7"
    | TruncatedHeader       // the declared record count runs past the end of the buffer
    | TruncatedRecord       // a fixed-offset field of a record runs past the end of the buffer
    | UnknownTag(tag: Byte) // a record whose type tag is none of 0, 1, 2, 3

  datatype Result<+T> = Ok(value: T) | Err(error: LogError)
}
