/** Bytes, and the small vocabulary shared by the protocol and the record store. */
module Bytes {

  type byte = x: int | 0 <= x < 256

  datatype Option<+T> = None | Some(value: T)
}
