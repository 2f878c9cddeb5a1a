/** Types the modules share. */
module Values {
  type Byte = x: nat | x < 256

  datatype Option<T> = None | Some(value: T)
}
