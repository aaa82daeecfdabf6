/** Types shared by every module of the model. */
module Basics {
  type byte = b: int | 0 <= b < 256

  /** A Slice or std::string: a sequence of bytes. */
  type Bytes = seq<byte>

  datatype Option<+T> = None | Some(value: T)
}
