/** A value that may be absent: a null pointer, a missing key, an undefined decoding. */
module Options {
  datatype Option<T> = None | Some(value: T)
}
