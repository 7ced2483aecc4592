/** Sizes that the 32-bit kernel's C types fix. */
module Machine {
  /** `uint32_t` arithmetic is modulo this. */
  const WORD := 0x1_0000_0000

  type byte = b: int | 0 <= b < 256

  /** The character that ends a C string. */
  const NUL := '\0'
}
