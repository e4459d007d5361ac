/** The byte type of the text pipeline and the option type shared by all modules. */
module Bytes {

  type Byte = b: int | 0 <= b < 256

  datatype Option<+T> = None | Some(value: T)
}
