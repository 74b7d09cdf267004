/** Types and constants shared by the models. */
module Common {

  datatype Option<+T> = None | Some(value: T)

  /** An unsigned char. */
  type Byte = b: int | 0 <= b < 256

  const DOT: Byte := 46

  const INT_MAX: nat := 0x7FFF_FFFF
  const UINT_MAX: nat := 0xFFFF_FFFF

  const UV_E2BIG: int := -7
  const UV_ENOMEM: int := -12
  const UV_EINVAL: int := -22
  const UV_ENOSPC: int := -28
  const UV_ENOBUFS: int := -105
}
