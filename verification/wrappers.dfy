/** Small shared vocabulary: optional values and bytes. */
module Wrappers {

  /** A value that may be absent, used for partial results such as decoding. */
  datatype Option<+T> = None | Some(value: T)

  /** One octet, as Go's `byte`. */
  type byte = bv8
}
