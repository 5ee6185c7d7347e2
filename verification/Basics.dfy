/** What several modules use. */
module Basics {

  datatype Option<T> = None | Some(value: T)

  type Byte = x: int | 0 <= x < 256

  /** The number of values of a 32-bit word. */
  const WORD: nat := 0x1_0000_0000
}
