/** Machine types and small wrappers shared by the decoder and the coincidence counter. */
module Common {

  /** Rust's `u8`: channel numbers and marker payloads. */
  newtype u8 = x: int | 0 <= x < 0x100

  /** Number of input channels of the device; `singles` and `coincidences` have one slot each. */
  const CHANNELS: nat := 8

  /** Rust's `Option`, used for the index of the last stale sync entry. */
  datatype Option<+T> = None | Some(value: T)
}
