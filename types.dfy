/** Machine types and constants shared by every part of the AIIR model. */
module AiirTypes {

  /** An unsigned 8-bit byte. */
  type u8 = x: nat | x < 0x100

  /** An unsigned 32-bit word, the unit of every AIIR container. */
  type u32 = x: nat | x < 0x1_0000_0000

  const U32_MOD: nat := 0x1_0000_0000

  /** A C string: it can hold any character but the terminating NUL. */
  type CString = s: string | '\0' !in s

  /** Magic numbers and versions of the two container profiles (aiir_core.h). */
  const A2A_MAGIC: u32 := 0x41324131
  const A2A_VERSION: u32 := 2
  const D2B_MAGIC: u32 := 0x44324231
  const D2B_VERSION: u32 := 1

  datatype Option<+T> = None | Some(value: T)

  /** The C expression `(uint32_t)x`: reduction modulo 2^32. */
  function Wrap32(x: int): (r: u32)
    ensures 0 <= x < U32_MOD ==> r == x
  {
    x % U32_MOD
  }

  function Min(a: nat, b: nat): nat
  {
    if a < b then a else b
  }
}
