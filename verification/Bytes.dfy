/** Machine-width constants and the byte type shared by every component. */
module Bytes {
  type byte = b: int | 0 <= b < 256

  const UINT16_MAX: int := 0xFFFF
  const UINT32_MAX: int := 0xFFFF_FFFF
  const UINT64_MAX: int := 0xFFFF_FFFF_FFFF_FFFF
  const INT64_MAX: int := 0x7FFF_FFFF_FFFF_FFFF
  const SSIZE_MAX: int := 0x7FFF_FFFF_FFFF_FFFF

  type uint32 = n: int | 0 <= n <= 0xFFFF_FFFF
  type uint64 = n: int | 0 <= n <= 0xFFFF_FFFF_FFFF_FFFF

  datatype Option<+T> = None | Some(value: T)
}
