/** Small value types shared by the rest of the model. */
module Types {

  /** An optional value, standing for a Go pointer that may be nil. */
  datatype Option<+T> = None | Some(value: T)

  /** Go's `byte`. */
  type byte = x: int | 0 <= x < 256

  /** A 6-bit group: the value of one character of the base64 alphabet. */
  type sextet = x: int | 0 <= x < 64
}
