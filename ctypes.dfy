/** Fixed-width C integer types and small helpers shared by the other modules. */
module CTypes {

  /** uint8_t */
  newtype uint8 = x: int | 0 <= x < 0x100

  /** uint16_t */
  newtype uint16 = x: int | 0 <= x < 0x1_0000

  /** An optional out-value: a C out-pointer that was either written or left alone. */
  datatype Option<T> = None | Some(value: T)

  /** std::min on sizes. */
  function Min(a: nat, b: nat): (m: nat)
  {
    if a <= b then a else b
  }
}
