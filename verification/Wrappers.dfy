/** Types shared by the modules: optional values, results that may fail, and bytes. */
module Wrappers {

  datatype Option<+T> = None | Some(value: T)

  datatype Result<+T> = Err | Ok(value: T)

  type Byte = b: int | 0 <= b < 256
  type Bytes = seq<Byte>
}
