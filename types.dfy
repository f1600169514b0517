/** Primitive types shared by the model of `head`. */
module Types {

  /** One byte of the input stream or of standard output. */
  type byte = x: int | 0 <= x < 0x100

  /** Rust's `u32`, the type of both command-line counts. */
  type u32 = x: int | 0 <= x < 0x1_0000_0000

  /** The line terminator `'\n'` and the carriage return `'\r'`. */
  const NL: byte := 0x0A
  const CR: byte := 0x0D

  datatype Option<T> = None | Some(value: T)

  function Min(a: int, b: int): (m: int)
    ensures m <= a && m <= b
    ensures m == a || m == b
  {
    if a <= b then a else b
  }
}
