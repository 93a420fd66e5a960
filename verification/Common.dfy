/** Word sizes and optional values. */
module Common {
  const M16: nat := 0x1_0000
  const M32: nat := 0x1_0000_0000
  const M64: nat := 0x1_0000_0000_0000_0000

  type U16 = x: int | 0 <= x < 0x1_0000

  datatype Option<T> = None | Some(value: T)
}
