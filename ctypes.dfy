/** The C character types the back end works on. */
module CTypes {

  /** The string terminator. */
  const NUL: char := '\0'

  /** A C `char` or `uint8_t`: one byte. */
  type Octet = c: char | c as int < 256 witness NUL

  /** A `uint8_t` taken as a number; `>> 4` and `& 0xf` on it are `/ 16` and `% 16`. */
  type Byte = b: int | 0 <= b < 256
}
