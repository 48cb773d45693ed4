/** Small types and sequence facts shared by the other modules. */
module Common {
  datatype Option<+T> = None | Some(value: T)

  /** A value kept to one machine word, so that every assignment to it is an overflow check. */
  type u32 = x: int | 0 <= x < 0x1_0000_0000

  type byte = x: int | 0 <= x < 256
}
