/** Machine words: the ranges the C code works in, with wrap-around where it can happen. */
module Words {
  const UINT_MAX: int := 0xFFFF_FFFF
  const LONG_MAX: int := 0x7FFF_FFFF_FFFF_FFFF

  type u32 = x: int | 0 <= x <= 0xFFFF_FFFF

  function Inc32(x: u32): u32 { if x == UINT_MAX then 0 else x + 1 }

  function Dec32(x: u32): u32 { if x == 0 then UINT_MAX else x - 1 }

  function Wrap32(x: int): u32 { x % 0x1_0000_0000 }
}

/** Error numbers, returned negated as in the kernel. */
module Errno {
  const ENOENT := 2
  const EAGAIN := 11
  const ENOMEM := 12
  const EFAULT := 14
  const EBUSY := 16
  const EINVAL := 22
  const EPIPE := 32
  const EIO := 5
  const EPERM := 1
  const ENXIO := 6
  const EBADFD := 77
  const ESTRPIPE := 86
  const ERESTARTSYS := 512
}

/** Values that may be missing. */
module Options {
  datatype Option<+T> = None | Some(value: T)
}
